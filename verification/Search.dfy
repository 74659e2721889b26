/** The branch-and-bound search itself, on a graph whose positions are in order of decreasing
    feerate (src/cluster_linearize.h, SearchCandidateFinder::FindCandidateSet). */
module Searching {
  import opened FeeFracs
  import opened Sums
  import opened DepGraphs
  import opened LinearizationChunkings
  import opened AncestorFinders
  import opened SearchTheory
  import opened Powers

  /** What the search keeps: the best set so far, the transactions steeper than it, the queue. */
  datatype State = State(best: SetInfo, imp: set<nat>, queue: seq<WorkItem>)

  ghost predicate SearchGraph(h: Graph, todo: set<nat>) {
    WellFormed(h) && PositiveSizes(h) && ByFeerate(h) && todo <= h.used
  }

  ghost predicate BestValid(h: Graph, todo: set<nat>, best: SetInfo, imp: set<nat>) {
    Exact(h, best) && Candidate(h, best.transactions, todo) && Improvers(h, imp, todo, best.feerate)
  }

  ghost predicate QueueValid(h: Graph, todo: set<nat>, queue: seq<WorkItem>, best: FeeFrac, capacity: nat) {
    forall k {:trigger queue[k]} :: 0 <= k < |queue| ==>
        ItemValid(h, todo, queue[k], best) && k + |queue[k].und| <= capacity
  }

  ghost predicate StateValid(h: Graph, todo: set<nat>, st: State, capacity: nat) {
    BestValid(h, todo, st.best, st.imp) && QueueValid(h, todo, st.queue, st.best.feerate, capacity)
  }

  /** Nothing reachable is lost: while best is worse than the best candidates, some item leads to
      one of those. */
  ghost predicate NothingLost(h: Graph, todo: set<nat>, o: set<nat>, st: State) {
    Excess(st.best.feerate, SetRate(h, o)) > 0 ==> Covers(h, todo, o, st.queue)
  }

  // ---- Transactions steeper than best ----

  /** Drop from the end the transactions that are not steeper than `best`. */
  method TrimImprovers(h: Graph, todo: set<nat>, from: set<nat>, best: FeeFrac) returns (imp: set<nat>)
    requires ByFeerate(h) && PositiveSizes(h) && todo <= h.used && from <= todo && best.size > 0
    requires forall t :: t in todo && Higher(FeeRate(h, t), best) ==> t in from
    ensures Improvers(h, imp, todo, best)
  {
    imp := from;
    while imp != {}
      invariant imp <= from && forall t :: t in todo && Higher(FeeRate(h, t), best) ==> t in imp
      decreases |imp|
    {
      var check := Last(imp);
      if Higher(FeeRate(h, check), best) {
        forall t | t in imp ensures Higher(FeeRate(h, t), best) {
          if t != check {
            assert FeeRate(h, t).size > 0 && FeeRate(h, check).size > 0;
            ExcessAntisymmetric(FeeRate(h, t), FeeRate(h, check));
            SteeperTrans(best, FeeRate(h, check), FeeRate(h, t));
          }
        }
        break;
      }
      imp := imp - {check};
    }
  }

  // ---- Potential ----

  /** Add undecided improvers to `inc`, steepest first, while each raises the feerate. */
  method BuildPotential(h: Graph, todo: set<nat>, inc: SetInfo, und: set<nat>, imp: set<nat>) returns (pot: SetInfo)
    requires PositiveSizes(h) && ByFeerate(h) && todo <= h.used && inc.transactions <= todo && imp <= todo
    requires Exact(h, inc) && inc.transactions != {} && inc.transactions !! und
    ensures Potential(h, inc.transactions, und, imp, pot)
  {
    pot := inc;
    var rest := imp * und;
    while rest != {}
      invariant rest <= imp * und && PotentialSoFar(h, inc.transactions, und, imp, rest, pot)
      decreases |rest|
    {
      var pos := First(rest);
      if !Higher(FeeRate(h, pos), pot.feerate) {
        PotentialStops(h, todo, inc.transactions, und, imp, rest, pot, pos);
        return;
      }
      ghost var before := pot;
      pot := SetInfo(pot.transactions + {pos},
          FeeFrac(pot.feerate.fee + FeeRate(h, pos).fee, pot.feerate.size + FeeRate(h, pos).size));
      PotentialGrows(h, todo, inc.transactions, und, imp, rest, before, pot, pos);
      rest := rest - {pos};
    }
  }

  /** All of the visited improvers have been added, and all of them are steeper than the result. */
  ghost predicate PotentialSoFar(h: Graph, inc: set<nat>, und: set<nat>, imp: set<nat>, rest: set<nat>, pot: SetInfo) {
    && Exact(h, pot) && inc <= pot.transactions && pot.transactions - inc == imp * und - rest - inc && inc !! und
    && (forall e {:trigger e in pot.transactions} :: e in pot.transactions - inc ==> Higher(FeeRate(h, e), pot.feerate))
    && (forall e, r {:trigger e in pot.transactions, r in rest} :: e in pot.transactions - inc && r in rest ==> e < r)
  }

  lemma {:induction false} PotentialStops(h: Graph, todo: set<nat>, inc: set<nat>, und: set<nat>, imp: set<nat>,
      rest: set<nat>, pot: SetInfo, pos: nat)
    requires PositiveSizes(h) && ByFeerate(h) && todo <= h.used && inc <= todo && inc != {} && imp <= todo
    requires rest <= imp * und
    requires PotentialSoFar(h, inc, und, imp, rest, pot) && pos in rest && (forall r :: r in rest ==> pos <= r)
    requires !Higher(FeeRate(h, pos), pot.feerate)
    ensures Potential(h, inc, und, imp, pot)
  {
    hide SetRate;
    assert pot.transactions <= inc + (pot.transactions - inc);
    SetSizePositive(h, pot.transactions);
    forall e | e in imp * und - pot.transactions ensures !Higher(FeeRate(h, e), pot.feerate) {
      assert e in rest;
      assert FeeRate(h, e).size > 0 && FeeRate(h, pos).size > 0;
      if e != pos { FlatterTrans(pot.feerate, FeeRate(h, pos), FeeRate(h, e)); }
    }
  }

  lemma {:induction false} AddedRate(a: FeeFrac, b: FeeFrac, r: FeeFrac)
    requires r.fee == a.fee + b.fee && r.size == a.size + b.size && Higher(b, a)
    ensures Higher(b, r)
  {
    assert b.fee * r.size == b.fee * a.size + b.fee * b.size;
    assert r.fee * b.size == a.fee * b.size + b.fee * b.size;
  }

  lemma {:induction false} PotentialGrows(h: Graph, todo: set<nat>, inc: set<nat>, und: set<nat>, imp: set<nat>,
      rest: set<nat>, before: SetInfo, pot: SetInfo, pos: nat)
    requires PositiveSizes(h) && ByFeerate(h) && todo <= h.used && inc <= todo && inc != {} && imp <= todo
    requires rest <= imp * und
    requires PotentialSoFar(h, inc, und, imp, rest, before) && pos in rest && (forall r :: r in rest ==> pos <= r)
    requires Higher(FeeRate(h, pos), before.feerate)
    requires pot == SetInfo(before.transactions + {pos},
            FeeFrac(before.feerate.fee + FeeRate(h, pos).fee, before.feerate.size + FeeRate(h, pos).size))
    ensures PotentialSoFar(h, inc, und, imp, rest - {pos}, pot)
  {
    hide SetRate;
    assert before.transactions <= inc + (before.transactions - inc);
    assert pos !in before.transactions;
    SetRateUnion(h, before.transactions, {pos});
    SetRateSingleton(h, pos);
    SetSizePositive(h, before.transactions);
    AddedRate(before.feerate, FeeRate(h, pos), pot.feerate);
    forall e | e in pot.transactions - inc ensures Higher(FeeRate(h, e), pot.feerate) {
      assert FeeRate(h, e).size > 0 && FeeRate(h, pos).size > 0;
      if e != pos {
        assert e in before.transactions && e < pos;
        ExcessAntisymmetric(FeeRate(h, e), FeeRate(h, pos));
        SteeperTrans(pot.feerate, FeeRate(h, pos), FeeRate(h, e));
      }
    }
    assert pot.transactions - inc == imp * und - (rest - {pos}) - inc;
  }

  // ---- Jumping ahead ----

  /** Include every transaction of the potential whose remaining ancestors it contains. */
  method JumpAhead(h: Graph, todo: set<nat>, inc: set<nat>, pot: set<nat>) returns (r: set<nat>)
    requires WellFormed(h) && todo <= h.used && Closed(h, inc, todo) && inc <= pot <= todo
    ensures inc <= r <= pot && Closed(h, r, todo)
    ensures forall t {:trigger t in r} {:trigger t in pot} :: t in pot ==> (t in r <==> Anc(h, t) * todo <= pot)
  {
    r := inc;
    var rest := pot - inc;
    while rest != {}
      invariant rest <= pot - inc && inc <= r <= pot && Closed(h, r, todo)
      invariant forall t {:trigger t in r} {:trigger t in pot} :: t in pot && t !in rest && Anc(h, t) * todo <= pot ==>
              t in r
      decreases |rest|
    {
      var pos := First(rest);
      var anc := Anc(h, pos) * todo;
      if anc <= pot {
        AncestorSetClosed(h, pos, todo);
        ClosedUnion(h, r, anc, todo);
        r := r + anc;
      }
      rest := rest - {pos};
    }
  }

  // ---- Adding a work item ----

  lemma {:induction false} EqualSizes(h: Graph, todo: set<nat>, inc: set<nat>, pot: set<nat>)
    requires PositiveSizes(h) && todo <= h.used && inc <= pot <= todo && SetRate(h, inc).size == SetRate(h, pot).size
    ensures inc == pot
  {
    hide SetRate;
    assert pot == inc + (pot - inc);
    SetRateUnion(h, inc, pot - inc);
    SetSizePositive(h, pot - inc);
  }

  /** The sets of the item after jumping ahead. */
  lemma {:induction false} JumpedSets(h: Graph, todo: set<nat>, inc: SetInfo, und: set<nat>, pot: SetInfo,
      imp: set<nat>, jumped: SetInfo)
    requires ItemSets(h, todo, inc, und) && Potential(h, inc.transactions, und, imp, pot)
    requires inc.transactions <= jumped.transactions <= pot.transactions
    requires Closed(h, jumped.transactions, todo) && Exact(h, jumped)
    ensures ItemSets(h, todo, jumped, und - jumped.transactions)
    ensures inc.transactions + und == jumped.transactions + (und - jumped.transactions)
  {
    assert jumped.transactions <= inc.transactions + und by {
      assert jumped.transactions <= inc.transactions + (pot.transactions - inc.transactions);
    }
    assert inc.transactions + und == jumped.transactions + (und - jumped.transactions);
  }

  /** A best candidate reached before jumping ahead is reached after it. */
  lemma {:induction false} JumpedReaches(h: Graph, todo: set<nat>, o: set<nat>, inc: SetInfo, und: set<nat>,
      imp: set<nat>, pot: SetInfo, best: FeeFrac, jumped: set<nat>)
    requires SearchGraph(h, todo) && BestCandidate(h, o, todo) && best.size > 0 && Excess(best, SetRate(h, o)) > 0
    requires ItemSets(h, todo, inc, und) && inc.transactions != {} && Improvers(h, imp, todo, best)
    requires Potential(h, inc.transactions, und, imp, pot)
    requires inc.transactions <= jumped <= pot.transactions && Closed(h, jumped, todo)
    requires inc.transactions + und == jumped + (und - jumped)
    requires Reaches(h, todo, o, inc.transactions, und)
    ensures Reaches(h, todo, o, jumped, und - jumped)
  {
    hide SetRate, SetSum, Improvers, ByFeerate, WellFormed, Closed;
    var b :| Holds(h, todo, o, inc.transactions, und, b);
    PotentialReachesBest(h, todo, o, inc, und, imp, pot, best, b);
    assert pot.transactions <= inc.transactions + (pot.transactions - inc.transactions);
    IncSubset(h, todo, inc, und);
    JumpAheadSafe(h, todo, inc.transactions, pot, jumped, o, b);
    assert Holds(h, todo, o, jumped, und - jumped, b);
  }

  lemma {:induction false} IncSubset(h: Graph, todo: set<nat>, inc: SetInfo, und: set<nat>)
    requires ItemSets(h, todo, inc, und)
    ensures inc.transactions <= todo && und <= todo
  {
  }

  /** While best is worse than the best candidates, an item that reaches one has at least its
      feerate as potential. */
  lemma {:induction false} PotentialReachesBest(h: Graph, todo: set<nat>, o: set<nat>, inc: SetInfo, und: set<nat>,
      imp: set<nat>, pot: SetInfo, best: FeeFrac, b: set<nat>)
    requires PositiveSizes(h) && todo <= h.used && BestCandidate(h, o, todo) && best.size > 0
    requires Excess(best, SetRate(h, o)) > 0
    requires ItemSets(h, todo, inc, und) && inc.transactions != {} && Improvers(h, imp, todo, best)
    requires Potential(h, inc.transactions, und, imp, pot) && Holds(h, todo, o, inc.transactions, und, b)
    ensures Excess(SetRate(h, o), pot.feerate) >= 0
  {
    hide SetRate, SetSum, Improvers;
    IncSubset(h, todo, inc, und);
    PotentialBound(h, todo, inc.transactions, und, imp, pot, best, b);
    if Excess(best, SetRate(h, b)) <= 0 {
      NotBest(h, todo, best, o, b);
      assert false;
    }
    SetExcess(h, SetRate(h, o), b);
    assert pot.transactions <= inc.transactions + (pot.transactions - inc.transactions);
    SetSizePositive(h, o);
    SetSizePositive(h, b);
    SetSizePositive(h, pot.transactions);
    ExcessAntisymmetric(pot.feerate, SetRate(h, b));
    SteeperTrans(SetRate(h, o), SetRate(h, b), pot.feerate);
  }

  /** The new work item satisfies the bound on its potential. */
  lemma {:induction false} NewItemValid(h: Graph, todo: set<nat>, inc: SetInfo, und: set<nat>, imp: set<nat>,
      pot: SetInfo, best: FeeFrac, jumped: SetInfo, best': FeeFrac)
    requires SearchGraph(h, todo) && ItemSets(h, todo, inc, und) && inc.transactions != {} && best.size > 0
    requires best'.size > 0
    requires Improvers(h, imp, todo, best) && Potential(h, inc.transactions, und, imp, pot) && Excess(best', best) <= 0
    requires inc.transactions <= jumped.transactions <= pot.transactions && pot.transactions != jumped.transactions
    requires ItemSets(h, todo, jumped, und - jumped.transactions) && Excess(best', jumped.feerate) <= 0
    requires inc.transactions + und == jumped.transactions + (und - jumped.transactions)
    ensures ItemValid(h, todo, WorkItem(jumped, und - jumped.transactions, pot.feerate), best')
  {
    hide SetRate, SetSum, Improvers, ByFeerate, WellFormed, Closed;
    var item := WorkItem(jumped, und - jumped.transactions, pot.feerate);
    IncSubset(h, todo, inc, und);
    assert pot.transactions <= inc.transactions + (pot.transactions - inc.transactions);
    SetSizePositive(h, pot.transactions);
    forall b | Compatible(b, jumped.transactions, item.und)
      ensures Excess(pot.feerate, SetRate(h, b)) <= 0 || Excess(best', SetRate(h, b)) <= 0
    {
      PotentialBound(h, todo, inc.transactions, und, imp, pot, best, b);
      SetSizePositive(h, b);
      if Excess(best, SetRate(h, b)) <= 0 { FlatterTrans(best', best, SetRate(h, b)); }
    }
    assert item.und != {} by {
      assert pot.transactions == jumped.transactions + (pot.transactions - jumped.transactions);
      var e :| e in pot.transactions - jumped.transactions;
      assert e in pot.transactions - inc.transactions;
      assert e in item.und;
    }
  }

  /** Nothing is lost when the potential is already all included. */
  lemma {:induction false} ExhaustedItem(h: Graph, todo: set<nat>, o: set<nat>, inc: SetInfo, und: set<nat>,
      imp: set<nat>, pot: SetInfo, best: FeeFrac, best': FeeFrac)
    requires SearchGraph(h, todo) && BestCandidate(h, o, todo) && best.size > 0 && best'.size > 0
    requires Excess(best', best) <= 0
    requires Excess(best', SetRate(h, o)) > 0 && ItemSets(h, todo, inc, und) && inc.transactions != {}
    requires Improvers(h, imp, todo, best) && Potential(h, inc.transactions, und, imp, pot)
    requires Excess(best', pot.feerate) <= 0
    ensures !Reaches(h, todo, o, inc.transactions, und)
  {
    hide SetRate, SetSum, Improvers, ByFeerate, WellFormed, Potential, ItemSets;
    SetSizePositive(h, o);
    ExcessAntisymmetric(best', best);
    SteeperTrans(best, best', SetRate(h, o));
    forall b ensures !Holds(h, todo, o, inc.transactions, und, b) {
      if Holds(h, todo, o, inc.transactions, und, b) {
        PotentialReachesBest(h, todo, o, inc, und, imp, pot, best, b);
        PotentialPositive(h, todo, inc, und, imp, pot);
        ExcessAntisymmetric(SetRate(h, o), pot.feerate);
        FlatterTrans(best', pot.feerate, SetRate(h, o));
        assert false;
      }
    }
  }

  lemma {:induction false} PotentialPositive(h: Graph, todo: set<nat>, inc: SetInfo, und: set<nat>, imp: set<nat>,
      pot: SetInfo)
    requires PositiveSizes(h) && todo <= h.used && ItemSets(h, todo, inc, und) && inc.transactions != {}
    requires Potential(h, inc.transactions, und, imp, pot)
    ensures pot.feerate.size > 0
  {
    assert pot.transactions <= inc.transactions + (pot.transactions - inc.transactions);
    SetSizePositive(h, pot.transactions);
  }

  /** Update best, and the transactions steeper than it, if `found` is better. */
  method UpdateBest(h: Graph, todo: set<nat>, best: SetInfo, imp: set<nat>, found: SetInfo)
      returns (best': SetInfo, imp': set<nat>)
    requires SearchGraph(h, todo) && BestValid(h, todo, best, imp) && Exact(h, found)
    requires Candidate(h, found.transactions, todo)
    ensures BestValid(h, todo, best', imp') && NotWorse(best'.feerate, best.feerate)
    ensures Excess(best'.feerate, found.feerate) <= 0
  {
    hide SetRate, Candidate, ByFeerate, WellFormed, PositiveSizes;
    best', imp' := best, imp;
    CandidatePositive(h, todo, best);
    CandidatePositive(h, todo, found);
    if Better(found.feerate, best.feerate) {
      best' := found;
      StillImprovers(h, todo, imp, best.feerate, found.feerate);
      imp' := TrimImprovers(h, todo, imp, found.feerate);
    }
  }

  lemma {:induction false} CandidatePositive(h: Graph, todo: set<nat>, s: SetInfo)
    requires PositiveSizes(h) && todo <= h.used && Exact(h, s) && Candidate(h, s.transactions, todo)
    ensures s.feerate.size > 0
  {
    SetSizePositive(h, s.transactions);
  }

  lemma {:induction false} StillImprovers(h: Graph, todo: set<nat>, imp: set<nat>, best: FeeFrac, better: FeeFrac)
    requires PositiveSizes(h) && todo <= h.used && Improvers(h, imp, todo, best) && best.size > 0
    requires better.size > 0 && Better(better, best)
    ensures forall t :: t in todo && Higher(FeeRate(h, t), better) ==> t in imp
  {
    forall t | t in todo && Higher(FeeRate(h, t), better) ensures t in imp {
      assert FeeRate(h, t).size > 0;
      SteeperTrans(best, better, FeeRate(h, t));
    }
  }

  /** Queue and best after an item with sets (inc, und) has been considered. */
  ghost predicate Added(h: Graph, todo: set<nat>, o: set<nat>, st: State, inc: set<nat>, und: set<nat>, capacity: nat,
      st': State) {
    && StateValid(h, todo, st', capacity) && NotWorse(st'.best.feerate, st.best.feerate)
    && st.queue <= st'.queue && |st'.queue| <= |st.queue| + 1
    && (Excess(st'.best.feerate, SetRate(h, o)) > 0
        && (Covers(h, todo, o, st.queue) || Reaches(h, todo, o, inc, und)) ==>
          Covers(h, todo, o, st'.queue))
  }

  lemma {:induction false} CoversAppend(h: Graph, todo: set<nat>, o: set<nat>, queue: seq<WorkItem>, item: WorkItem)
    ensures Covers(h, todo, o, queue) ==> Covers(h, todo, o, queue + [item])
    ensures Reaches(h, todo, o, item.inc.transactions, item.und) ==> Covers(h, todo, o, queue + [item])
  {
    hide Reaches;
    var q := queue + [item];
    if Covers(h, todo, o, queue) {
      var k :| 0 <= k < |queue| && Reaches(h, todo, o, queue[k].inc.transactions, queue[k].und);
      assert q[k] == queue[k];
    }
    assert q[|queue|] == item;
  }

  lemma {:induction false} QueueBetter(h: Graph, todo: set<nat>, queue: seq<WorkItem>, best: FeeFrac, better: FeeFrac,
      capacity: nat)
    requires PositiveSizes(h) && todo <= h.used && QueueValid(h, todo, queue, best, capacity)
    requires best.size > 0 && better.size > 0 && Excess(better, best) <= 0
    ensures QueueValid(h, todo, queue, better, capacity)
  {
    hide ItemValid;
    forall k | 0 <= k < |queue| ensures ItemValid(h, todo, queue[k], better) && k + |queue[k].und| <= capacity {
      ItemValidBetter(h, todo, queue[k], best, better);
    }
  }

  lemma {:induction false} QueueAppend(h: Graph, todo: set<nat>, queue: seq<WorkItem>, item: WorkItem, best: FeeFrac,
      capacity: nat)
    requires QueueValid(h, todo, queue, best, capacity) && ItemValid(h, todo, item, best)
    requires |queue| + |item.und| <= capacity
    ensures QueueValid(h, todo, queue + [item], best, capacity)
  {
  }

  /** Consider the item (inc, und): improve it, update best, and queue it if it may lead to
      something better. The queue never outgrows its capacity. */
  method AddItem(h: Graph, todo: set<nat>, st: State, inc: SetInfo, und: set<nat>, ghost capacity: nat,
      ghost o: set<nat>) returns (st': State)
    requires SearchGraph(h, todo) && StateValid(h, todo, st, capacity) && BestCandidate(h, o, todo)
    requires ItemSets(h, todo, inc, und) && |st.queue| + |und| <= capacity
    ensures Added(h, todo, o, st, inc.transactions, und, capacity, st')
    ensures Splits(st'.queue) <= Splits(st.queue) + Pow2(|und|) - 1
  {
    hide *;
    if IsEmpty(inc.feerate) {
      EmptyInc(h, todo, inc, und);
      st' := AddEmpty(h, todo, st, inc, und, capacity, o);
    } else {
      EmptyInc(h, todo, inc, und);
      st' := AddIncluded(h, todo, st, inc, und, capacity, o);
    }
  }

  lemma {:induction false} EmptyInc(h: Graph, todo: set<nat>, inc: SetInfo, und: set<nat>)
    requires SearchGraph(h, todo) && ItemSets(h, todo, inc, und)
    ensures IsEmpty(inc.feerate) <==> inc.transactions == {}
  {
    SetSizePositive(h, inc.transactions);
    if inc.transactions == {} { EmptyRate(h); }
  }

  method AddEmpty(h: Graph, todo: set<nat>, st: State, inc: SetInfo, und: set<nat>, ghost capacity: nat,
      ghost o: set<nat>) returns (st': State)
    requires SearchGraph(h, todo) && StateValid(h, todo, st, capacity) && BestCandidate(h, o, todo)
    requires ItemSets(h, todo, inc, und) && |st.queue| + |und| <= capacity && inc.transactions == {}
    ensures Added(h, todo, o, st, inc.transactions, und, capacity, st')
    ensures Splits(st'.queue) <= Splits(st.queue) + Pow2(|und|) - 1
  {
    hide SearchGraph, ItemSets, BestCandidate, Covers, Reaches, Candidate, Improvers, SetRate, Splits, Pow2;
    SelfNotWorse(st.best.feerate);
    if und == {} {
      NothingToReach(h, todo, o, inc.transactions);
      return st;
    }
    var item := WorkItem(inc, und, EMPTY);
    SplitsAppend(st.queue, item);
    QueueAppend(h, todo, st.queue, item, st.best.feerate, capacity);
    CoversAppend(h, todo, o, st.queue, item);
    st' := State(st.best, st.imp, st.queue + [item]);
  }

  lemma {:induction false} SelfNotWorse(a: FeeFrac)
    ensures NotWorse(a, a)
  {
  }

  lemma {:induction false} NothingToReach(h: Graph, todo: set<nat>, o: set<nat>, inc: set<nat>)
    requires inc == {}
    ensures !Reaches(h, todo, o, inc, {})
  {
  }

  method AddIncluded(h: Graph, todo: set<nat>, st: State, inc: SetInfo, und: set<nat>, ghost capacity: nat,
      ghost o: set<nat>) returns (st': State)
    requires SearchGraph(h, todo) && StateValid(h, todo, st, capacity) && BestCandidate(h, o, todo)
    requires ItemSets(h, todo, inc, und) && |st.queue| + |und| <= capacity && inc.transactions != {}
    ensures Added(h, todo, o, st, inc.transactions, und, capacity, st')
    ensures Splits(st'.queue) <= Splits(st.queue) + Pow2(|und|) - 1
  {
    hide *;
    ItemFacts(h, todo, st, inc, und, capacity);
    var pot := BuildPotential(h, todo, inc, und, st.imp);
    PotFacts(h, todo, inc, und, st.imp, pot);
    var jumped := JumpAhead(h, todo, inc.transactions, pot.transactions);
    var more := SumRate(h, jumped - inc.transactions);
    var included := SetInfo(jumped, FeeFrac(inc.feerate.fee + more.fee, inc.feerate.size + more.size));
    JumpedExact(h, todo, inc, included, more);
    JumpedSets(h, todo, inc, und, pot, st.imp, included);
    var best', imp' := UpdateBest(h, todo, st.best, st.imp, included);
    BestFacts(h, todo, st, best', imp', capacity);
    if pot.feerate.size == included.feerate.size {
      EqualPot(h, todo, pot, included);
      st' := State(best', imp', st.queue);
      AddedNothing(h, todo, o, st, inc, und, pot, capacity, st');
    } else {
      var item := WorkItem(included, und - jumped, pot.feerate);
      SplitsAppend(st.queue, item);
      FewerSplits(und - jumped, und);
      st' := State(best', imp', st.queue + [item]);
      AddedItem(h, todo, o, st, inc, und, pot, capacity, included, st');
    }
  }

  lemma {:induction false} FewerSplits(a: set<nat>, b: set<nat>)
    requires a <= b
    ensures Pow2(|a|) <= Pow2(|b|)
  {
    SubsetCard(a, b);
    Pow2Order(|a|, |b|);
  }

  lemma {:induction false} ItemFacts(h: Graph, todo: set<nat>, st: State, inc: SetInfo, und: set<nat>, capacity: nat)
    requires SearchGraph(h, todo) && StateValid(h, todo, st, capacity) && ItemSets(h, todo, inc, und)
    ensures WellFormed(h) && PositiveSizes(h) && ByFeerate(h) && todo <= h.used && inc.transactions <= todo
    ensures st.imp <= todo && und <= todo
    ensures Exact(h, inc) && inc.transactions !! und && Closed(h, inc.transactions, todo)
    ensures BestValid(h, todo, st.best, st.imp) && Improvers(h, st.imp, todo, st.best.feerate)
  {
  }

  lemma {:induction false} PotFacts(h: Graph, todo: set<nat>, inc: SetInfo, und: set<nat>, imp: set<nat>, pot: SetInfo)
    requires Potential(h, inc.transactions, und, imp, pot) && inc.transactions <= todo && imp <= todo
    ensures inc.transactions <= pot.transactions <= todo
  {
    assert pot.transactions <= inc.transactions + (pot.transactions - inc.transactions);
  }

  lemma {:induction false} JumpedExact(h: Graph, todo: set<nat>, inc: SetInfo, included: SetInfo, more: FeeFrac)
    requires Exact(h, inc) && inc.transactions != {} && inc.transactions <= included.transactions
    requires Closed(h, included.transactions, todo)
    requires more == SetRate(h, included.transactions - inc.transactions)
    requires included.feerate == FeeFrac(inc.feerate.fee + more.fee, inc.feerate.size + more.size)
    ensures Exact(h, included) && Candidate(h, included.transactions, todo)
  {
    hide SetRate;
    assert included.transactions == inc.transactions + (included.transactions - inc.transactions);
    SetRateUnion(h, inc.transactions, included.transactions - inc.transactions);
  }

  lemma {:induction false} BestFacts(h: Graph, todo: set<nat>, st: State, best': SetInfo, imp': set<nat>, capacity: nat)
    requires SearchGraph(h, todo) && StateValid(h, todo, st, capacity) && BestValid(h, todo, best', imp')
    requires NotWorse(best'.feerate, st.best.feerate)
    ensures st.best.feerate.size > 0 && best'.feerate.size > 0 && Excess(best'.feerate, st.best.feerate) <= 0
    ensures QueueValid(h, todo, st.queue, best'.feerate, capacity)
  {
    hide QueueValid, SetRate;
    CandidatePositive(h, todo, st.best);
    CandidatePositive(h, todo, best');
    NotWorseRate(best'.feerate, st.best.feerate);
    QueueBetter(h, todo, st.queue, st.best.feerate, best'.feerate, capacity);
  }

  lemma {:induction false} EqualPot(h: Graph, todo: set<nat>, pot: SetInfo, included: SetInfo)
    requires PositiveSizes(h) && todo <= h.used && Exact(h, pot) && Exact(h, included)
    requires included.transactions <= pot.transactions <= todo
    requires pot.feerate.size == included.feerate.size
    ensures pot == included
  {
    EqualSizes(h, todo, included.transactions, pot.transactions);
  }

  lemma {:induction false} AddedNothing(h: Graph, todo: set<nat>, o: set<nat>, st: State, inc: SetInfo, und: set<nat>,
      pot: SetInfo, capacity: nat, st': State)
    requires SearchGraph(h, todo) && BestValid(h, todo, st.best, st.imp) && BestCandidate(h, o, todo)
    requires ItemSets(h, todo, inc, und) && inc.transactions != {}
    requires Potential(h, inc.transactions, und, st.imp, pot) && st'.queue == st.queue
    requires BestValid(h, todo, st'.best, st'.imp)
    requires QueueValid(h, todo, st.queue, st'.best.feerate, capacity) && NotWorse(st'.best.feerate, st.best.feerate)
    requires st.best.feerate.size > 0 && st'.best.feerate.size > 0
    requires Excess(st'.best.feerate, st.best.feerate) <= 0 && Excess(st'.best.feerate, pot.feerate) <= 0
    ensures Added(h, todo, o, st, inc.transactions, und, capacity, st')
  {
    hide SearchGraph, BestCandidate, ItemSets, Potential, QueueValid, SetRate, Covers, Reaches, Improvers, Candidate,
        NotWorse;
    if Excess(st'.best.feerate, SetRate(h, o)) > 0 {
      ExhaustedItem(h, todo, o, inc, und, st.imp, pot, st.best.feerate, st'.best.feerate);
    }
  }

  lemma {:induction false} AddedItem(h: Graph, todo: set<nat>, o: set<nat>, st: State, inc: SetInfo, und: set<nat>,
      pot: SetInfo, capacity: nat, included: SetInfo, st': State)
    requires SearchGraph(h, todo) && BestValid(h, todo, st.best, st.imp) && BestCandidate(h, o, todo)
    requires ItemSets(h, todo, inc, und) && inc.transactions != {}
    requires Potential(h, inc.transactions, und, st.imp, pot) && BestValid(h, todo, st'.best, st'.imp)
    requires |st.queue| + |und| <= capacity
    requires QueueValid(h, todo, st.queue, st'.best.feerate, capacity) && NotWorse(st'.best.feerate, st.best.feerate)
    requires st.best.feerate.size > 0 && st'.best.feerate.size > 0 && Excess(st'.best.feerate, st.best.feerate) <= 0
    requires Excess(st'.best.feerate, included.feerate) <= 0 && pot.feerate.size != included.feerate.size
    requires inc.transactions <= included.transactions <= pot.transactions && Exact(h, included)
    requires Closed(h, included.transactions, todo)
    requires ItemSets(h, todo, included, und - included.transactions)
    requires inc.transactions + und == included.transactions + (und - included.transactions)
    requires st'.queue == st.queue + [WorkItem(included, und - included.transactions, pot.feerate)]
    ensures Added(h, todo, o, st, inc.transactions, und, capacity, st')
  {
    hide SearchGraph, BestCandidate, ItemSets, QueueValid, SetRate, Covers, Reaches, Improvers, Candidate, NotWorse,
        ItemValid, Closed;
    var item := WorkItem(included, und - included.transactions, pot.feerate);
    assert pot.transactions != included.transactions;
    NewItemValid(h, todo, inc, und, st.imp, pot, st.best.feerate, included, st'.best.feerate);
    SubsetCard(item.und, und);
    QueueAppend(h, todo, st.queue, item, st'.best.feerate, capacity);
    CoversAppend(h, todo, o, st.queue, item);
    if Excess(st'.best.feerate, SetRate(h, o)) > 0 && Reaches(h, todo, o, inc.transactions, und) {
      BestStillWorse(h, todo, o, st.best.feerate, st'.best.feerate);
      JumpedReaches(h, todo, o, inc, und, st.imp, pot, st.best.feerate, included.transactions);
    }
  }

  lemma {:induction false} BestStillWorse(h: Graph, todo: set<nat>, o: set<nat>, best: FeeFrac, best': FeeFrac)
    requires SearchGraph(h, todo) && BestCandidate(h, o, todo) && best.size > 0 && best'.size > 0
    requires Excess(best', best) <= 0
    requires Excess(best', SetRate(h, o)) > 0
    ensures Excess(best, SetRate(h, o)) > 0
  {
    hide SetRate, SetSum;
    SetSizePositive(h, o);
    ExcessAntisymmetric(best', best);
    SteeperTrans(best, best', SetRate(h, o));
  }
}
