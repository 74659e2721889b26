/** Splitting work items and the processing loop of the candidate search (src/cluster_linearize.h,
    SearchCandidateFinder::FindCandidateSet). */
module SearchLoops {
  import opened FeeFracs
  import opened Sums
  import opened DepGraphs
  import opened DepGraphObjects
  import opened LinearizationChunkings
  import opened AncestorFinders
  import opened SearchTheory
  import opened Searching
  import opened Powers

  // ---- Which transaction to split on ----

  /** Size of the search space left by a split that leaves `a` and `b` transactions undecided. */
  function Space(a: nat, b: nat): nat {
    Pow2(a) + Pow2(b)
  }

  /** (max, min) pairs are ordered lexicographically as the search spaces are. */
  lemma {:induction false} CountsOrder(hi: nat, lo: nat, hi': nat, lo': nat)
    requires hi >= lo && hi' >= lo'
    ensures hi < hi' || (hi == hi' && lo < lo') <==> Space(hi, lo) < Space(hi', lo')
  {
    Pow2Order(hi, hi');
    Pow2Order(hi', hi);
    Pow2Order(lo, hi);
    Pow2Order(lo', hi');
    Pow2Order(lo, lo');
    Pow2Order(lo', lo);
  }

  ghost function SplitSpace(h: Graph, und: set<nat>, t: nat): nat {
    Space(|und - Anc(h, t)|, |und - Desc(h, t)|)
  }

  /** `split` leaves the smallest search space among `seen`, and is the first to do so. */
  ghost predicate BestSplit(h: Graph, und: set<nat>, seen: set<nat>, split: nat) {
    && split in seen
    && forall u {:trigger u in seen} :: u in seen ==>
         SplitSpace(h, und, split) < SplitSpace(h, und, u)
             || (SplitSpace(h, und, split) == SplitSpace(h, und, u) && split <= u)
  }

  /** The candidate to split on. */
  method ChooseSplit(h: Graph, und: set<nat>, select: set<nat>) returns (split: nat)
    requires select != {}
    ensures BestSplit(h, und, select, split)
  {
    hide Space, SplitSpace;
    split := First(select);
    var rest := select - {split};
    var hi, lo := Counts(h, und, split);
    while rest != {}
      invariant rest <= select && hi >= lo && Space(hi, lo) == SplitSpace(h, und, split)
      invariant forall u, r :: u in select - rest && r in rest ==> u < r
      invariant BestSplit(h, und, select - rest, split)
      decreases |rest|
    {
      var t := First(rest);
      var hi', lo' := Counts(h, und, t);
      CountsOrder(hi', lo', hi, lo);
      BetterSplit(h, und, select - rest, split, t);
      assert select - (rest - {t}) == select - rest + {t};
      if hi' < hi || (hi' == hi && lo' < lo) {
        split, hi, lo := t, hi', lo';
      }
      rest := rest - {t};
    }
    assert select - rest == select;
  }

  lemma {:induction false} BetterSplit(h: Graph, und: set<nat>, seen: set<nat>, split: nat, t: nat)
    requires BestSplit(h, und, seen, split) && forall u :: u in seen ==> u < t
    ensures BestSplit(h, und, seen + {t}, if SplitSpace(h, und, t) < SplitSpace(h, und, split) then t else split)
  {
    hide SplitSpace;
  }

  method Counts(h: Graph, und: set<nat>, t: nat) returns (hi: nat, lo: nat)
    ensures hi >= lo && Space(hi, lo) == SplitSpace(h, und, t)
  {
    hi, lo := |und - Anc(h, t)|, |und - Desc(h, t)|;
    if hi < lo { hi, lo := lo, hi; }
  }

  // ---- Splitting a work item ----

  /** Both halves of a split are items, with fewer undecided transactions. */
  lemma {:induction false} ExcludedSets(h: Graph, todo: set<nat>, inc: SetInfo, und: set<nat>, t: nat)
    requires WellFormed(h) && todo <= h.used && ItemSets(h, todo, inc, und) && t in und
    ensures ItemSets(h, todo, inc, und - Desc(h, t)) && |und - Desc(h, t)| < |und|
  {
    hide SetRate;
    assert t in Desc(h, t);
    SubsetCard(und - Desc(h, t), und - {t});
    ExcludedClosed(h, todo, inc.transactions, und, t);
  }

  lemma {:induction false} ExcludedClosed(h: Graph, todo: set<nat>, i: set<nat>, und: set<nat>, t: nat)
    requires WellFormed(h) && todo <= h.used && Closed(h, i, todo) && i !! und && und <= todo
    requires Closed(h, i + und, todo) && t in und
    ensures Closed(h, i + (und - Desc(h, t)), todo)
  {
    var s := i + (und - Desc(h, t));
    forall x, a | x in s && a in Anc(h, x) * todo ensures a in s {
      assert a in i + und;
      assert a in Desc(h, t) ==> t in Anc(h, a);
    }
  }

  lemma {:induction false} IncludedSets(h: Graph, todo: set<nat>, inc: SetInfo, und: set<nat>, t: nat, anc: set<nat>,
      more: FeeFrac)
    requires WellFormed(h) && todo <= h.used && ItemSets(h, todo, inc, und) && t in und && anc == Anc(h, t) * todo
    requires more == SetRate(h, anc - inc.transactions)
    ensures ItemSets(h, todo,
            SetInfo(inc.transactions + anc, FeeFrac(inc.feerate.fee + more.fee, inc.feerate.size + more.size)),
            und - anc)
    ensures |und - anc| < |und|
  {
    hide SetRate, WellFormed, Closed;
    var i := inc.transactions;
    IncludedClosed(h, todo, i, und, t, anc);
    SubsetCard(und - anc, und - {t});
    assert i + anc == i + (anc - i);
    SetRateUnion(h, i, anc - i);
  }

  lemma {:induction false} IncludedClosed(h: Graph, todo: set<nat>, i: set<nat>, und: set<nat>, t: nat, anc: set<nat>)
    requires WellFormed(h) && todo <= h.used && t in und && anc == Anc(h, t) * todo && und <= todo
    requires Closed(h, i, todo) && Closed(h, i + und, todo)
    ensures t in anc && Closed(h, i + anc, todo) && i + anc + (und - anc) == i + und
    ensures Closed(h, i + anc + (und - anc), todo)
  {
    hide WellFormed;
    AncestorSetClosed(h, t, todo);
    ClosedUnion(h, i, anc, todo);
    assert anc <= i + und by { assert t in i + und; }
    assert i + anc + (und - anc) == i + und;
  }

  /** What processing a work item guarantees: best does not get worse, and while it is worse than
      the best candidates, none of those becomes unreachable. */
  ghost predicate Processed(h: Graph, todo: set<nat>, o: set<nat>, st: State, inc: set<nat>, und: set<nat>,
      capacity: nat, st': State) {
    && StateValid(h, todo, st', capacity) && NotWorse(st'.best.feerate, st.best.feerate) && st.queue <= st'.queue
    && (Excess(st'.best.feerate, SetRate(h, o)) > 0
        && (Covers(h, todo, o, st.queue) || Reaches(h, todo, o, inc, und)) ==>
          Covers(h, todo, o, st'.queue))
  }

  /** The item can be dropped. */
  predicate Pruned(h: Graph, st: State, elem: WorkItem)
    requires elem.und != {}
  {
    if !IsEmpty(elem.inc.feerate) then elem.und !! st.imp || !Better(elem.pot, st.best.feerate)
    else !Better(FeeRate(h, First(elem.und)), st.best.feerate)
  }

  method SplitItem(h: Graph, todo: set<nat>, st: State, elem: WorkItem, ghost capacity: nat, ghost o: set<nat>)
      returns (st': State, split: bool)
    requires SearchGraph(h, todo) && StateValid(h, todo, st, capacity) && BestCandidate(h, o, todo)
    requires ItemValid(h, todo, elem, st.best.feerate) && |st.queue| + |elem.und| <= capacity
    ensures Processed(h, todo, o, st, elem.inc.transactions, elem.und, capacity, st')
    ensures split || st' == st
    ensures split ==> Splits(st'.queue) + 1 < Splits(st.queue) + Pow2(|elem.und|)
  {
    hide *;
    SplitFacts(h, todo, st, elem, capacity);
    if Pruned(h, st, elem) {
      PrunedProcessed(h, todo, o, st, elem, capacity);
      return st, false;
    }
    var first := First(elem.und);
    FirstSelected(h, todo, elem.und, first);
    var select := elem.und * Anc(h, first);
    var t := ChooseSplit(h, elem.und, select);
    Selected(h, elem.und, select, t);
    var anc := Anc(h, t) * todo;
    var more := SumRate(h, anc - elem.inc.transactions);
    ExcludedSets(h, todo, elem.inc, elem.und, t);
    IncludedSets(h, todo, elem.inc, elem.und, t, anc, more);
    var st1 := AddItem(h, todo, st, elem.inc, elem.und - Desc(h, t), capacity, o);
    var included := SetInfo(elem.inc.transactions + anc,
        FeeFrac(elem.inc.feerate.fee + more.fee, elem.inc.feerate.size + more.size));
    AddedFacts(h, todo, o, st, elem.inc.transactions, elem.und - Desc(h, t), capacity, st1);
    st' := AddItem(h, todo, st1, included, elem.und - anc, capacity, o);
    split := true;
    HalvesFewer(|elem.und - Desc(h, t)|, |elem.und - anc|, |elem.und|);
    SplitProcessed(h, todo, o, st, elem, t, capacity, st1, st');
  }

  /** Both halves of a split together allow fewer splits than the whole. */
  lemma {:induction false} HalvesFewer(a: nat, b: nat, n: nat)
    requires a < n && b < n
    ensures Pow2(a) + Pow2(b) <= Pow2(n)
  {
    Pow2Order(a, n);
    Pow2Order(b, n);
  }

  lemma {:induction false} SplitFacts(h: Graph, todo: set<nat>, st: State, elem: WorkItem, capacity: nat)
    requires SearchGraph(h, todo) && StateValid(h, todo, st, capacity) && ItemValid(h, todo, elem, st.best.feerate)
    ensures WellFormed(h) && todo <= h.used && elem.und != {} && elem.und <= todo
    ensures ItemSets(h, todo, elem.inc, elem.und)
    ensures Anc(h, First(elem.und)) <= h.used
  {
  }

  lemma {:induction false} FirstSelected(h: Graph, todo: set<nat>, und: set<nat>, first: nat)
    requires WellFormed(h) && und <= todo <= h.used && first in und
    ensures first in und * Anc(h, first)
  {
  }

  lemma {:induction false} Selected(h: Graph, und: set<nat>, select: set<nat>, t: nat)
    requires BestSplit(h, und, select, t)
    ensures t in select
  {
  }

  lemma {:induction false} AddedFacts(h: Graph, todo: set<nat>, o: set<nat>, st: State, inc: set<nat>, und: set<nat>,
      capacity: nat, st': State)
    requires Added(h, todo, o, st, inc, und, capacity, st')
    ensures StateValid(h, todo, st', capacity) && |st'.queue| <= |st.queue| + 1
  {
  }

  lemma {:induction false} PrunedProcessed(h: Graph, todo: set<nat>, o: set<nat>, st: State, elem: WorkItem,
      capacity: nat)
    requires SearchGraph(h, todo) && StateValid(h, todo, st, capacity) && BestCandidate(h, o, todo)
    requires ItemValid(h, todo, elem, st.best.feerate) && Pruned(h, st, elem)
    ensures Processed(h, todo, o, st, elem.inc.transactions, elem.und, capacity, st)
  {
    hide SetRate, Covers, Reaches, QueueValid, BestCandidate, Closed, ByFeerate, WellFormed, PositiveSizes, Improvers,
        Candidate, ItemBound;
    SelfNotWorse(st.best.feerate);
    EmptyInc(h, todo, elem.inc, elem.und);
    CandidatePositive(h, todo, st.best);
    if Excess(st.best.feerate, SetRate(h, o)) > 0 {
      if elem.inc.transactions != {} {
        PrunedIncluded(h, todo, elem, st.best.feerate, st.imp, o);
      } else {
        PrunedEmpty(h, todo, elem.und, First(elem.und), st.best.feerate, o);
      }
    }
  }

  lemma {:induction false} SplitProcessed(h: Graph, todo: set<nat>, o: set<nat>, st: State, elem: WorkItem, t: nat,
      capacity: nat, st1: State, st2: State)
    requires SearchGraph(h, todo) && StateValid(h, todo, st, capacity) && BestCandidate(h, o, todo) && t in elem.und
    requires ItemSets(h, todo, elem.inc, elem.und)
    requires Added(h, todo, o, st, elem.inc.transactions, elem.und - Desc(h, t), capacity, st1)
    requires Added(h, todo, o, st1, elem.inc.transactions + Anc(h, t) * todo, elem.und - Anc(h, t) * todo, capacity,
            st2)
    ensures Processed(h, todo, o, st, elem.inc.transactions, elem.und, capacity, st2)
  {
    hide SetRate, Covers, Reaches, QueueValid, BestCandidate, Closed, ByFeerate, WellFormed, PositiveSizes, Improvers,
        Candidate, NotWorse;
    CandidatePositive(h, todo, st.best);
    CandidatePositive(h, todo, st1.best);
    CandidatePositive(h, todo, st2.best);
    NotWorseTrans(st2.best.feerate, st1.best.feerate, st.best.feerate);
    NotWorseRate(st2.best.feerate, st1.best.feerate);
    if Excess(st2.best.feerate, SetRate(h, o)) > 0 {
      BestStillWorse(h, todo, o, st1.best.feerate, st2.best.feerate);
      if Reaches(h, todo, o, elem.inc.transactions, elem.und) {
        IncSubset(h, todo, elem.inc, elem.und);
        SplitReaches(h, todo, o, elem.inc.transactions, elem.und, t);
      }
    }
  }

  // ---- The initial queue ----

  ghost predicate InitialItem(h: Graph, todo: set<nat>, item: WorkItem) {
    item.inc == SetInfo({}, EMPTY) && item.pot == EMPTY && item.und != {} && Separated(h, item.und, todo)
  }

  ghost predicate Touched(queue: seq<WorkItem>, x: nat) {
    exists k {:trigger queue[k]} :: 0 <= k < |queue| && x in queue[k].und
  }

  /** One item for each connected component outside `rest`. */
  ghost predicate InitialQueue(h: Graph, todo: set<nat>, queue: seq<WorkItem>, rest: set<nat>) {
    && Separated(h, rest, todo) && |queue| + |rest| <= |todo|
    && (forall k {:trigger queue[k]} :: 0 <= k < |queue| ==>
        InitialItem(h, todo, queue[k]) && k + |queue[k].und| <= |todo|)
    && (forall x {:trigger Touched(queue, x)} :: x in todo - rest ==> Touched(queue, x))
  }

  lemma {:induction false} InitialStep(h: Graph, todo: set<nat>, queue: seq<WorkItem>, rest: set<nat>, c: set<nat>)
    requires WellFormed(h) && todo <= h.used && InitialQueue(h, todo, queue, rest) && Separated(h, c, rest) && c != {}
    ensures InitialQueue(h, todo, queue + [WorkItem(SetInfo({}, EMPTY), c, EMPTY)], rest - c) && |rest - c| < |rest|
    ensures Separated(h, c, todo)
  {
    var item := WorkItem(SetInfo({}, EMPTY), c, EMPTY);
    var q := queue + [item];
    SeparatedParts(h, todo, rest, c);
    SubsetCard(c, rest);
    var x :| x in c;
    SubsetCard(rest - c, rest - {x});
    forall y | y in todo - (rest - c) ensures Touched(q, y) {
      if y in c {
        assert q[|queue|].und == c;
      } else {
        assert Touched(queue, y);
        var k :| 0 <= k < |queue| && y in queue[k].und;
        assert q[k] == queue[k];
      }
    }
  }

  lemma {:induction false} SeparatedParts(h: Graph, todo: set<nat>, rest: set<nat>, c: set<nat>)
    requires WellFormed(h) && todo <= h.used && Separated(h, rest, todo) && Separated(h, c, rest)
    ensures Separated(h, c, todo) && Separated(h, rest - c, todo)
  {
    forall x | x in c ensures Anc(h, x) * todo <= c && Desc(h, x) * todo <= c {
      assert Anc(h, x) * todo == Anc(h, x) * rest && Desc(h, x) * todo == Desc(h, x) * rest;
    }
    forall x, a | x in rest - c && (a in Anc(h, x) * todo || a in Desc(h, x) * todo) ensures a in rest - c {
      assert a in rest;
      assert a in Anc(h, x) ==> x in Desc(h, a) * rest;
      assert a in Desc(h, x) ==> x in Anc(h, a) * rest;
    }
  }

  /** The first queue, and a best set to start from when none is given. */
  method StartQueue(h: Graph, todo: set<nat>, best0: SetInfo) returns (best: SetInfo, queue: seq<WorkItem>)
    requires SearchGraph(h, todo) && todo != {} && (best0.transactions == {} <==> IsEmpty(best0.feerate))
    ensures InitialQueue(h, todo, queue, {}) && queue != [] && Splits(queue) < Pow2(|todo|)
    ensures if best0.transactions != {} then best == best0 else Exact(h, best) && Candidate(h, best.transactions, todo)
  {
    hide *;
    best, queue := best0, [];
    var rest := todo;
    NoneCovered(h, todo);
    NoSplits();
    while rest != {}
      invariant InitialQueue(h, todo, queue, rest) && rest <= todo && (queue == [] ==> rest == todo)
      invariant Splits(queue) + Pow2(|rest|) <= Pow2(|todo|)
      invariant if best0.transactions != {}
              || queue == [] then best == best0
              else Exact(h, best) && Candidate(h, best.transactions, todo) && !IsEmpty(best.feerate)
      decreases |rest|
    {
      GraphFacts(h, todo);
      var c := FindConnectedComponent(h, rest);
      InitialStep(h, todo, queue, rest, c);
      if IsEmpty(best.feerate) {
        var rate := SumRate(h, c);
        best := SetInfo(c, rate);
        ComponentCandidate(h, todo, best);
      }
      SplitsAppend(queue, WorkItem(SetInfo({}, EMPTY), c, EMPTY));
      ComponentSplits(h, c, rest);
      rest := rest - c;
      queue := queue + [WorkItem(SetInfo({}, EMPTY), c, EMPTY)];
    }
  }

  lemma {:induction false} NoSplits()
    ensures Splits([]) == 0
  {
  }

  /** Components together allow fewer splits than the whole. */
  lemma {:induction false} ComponentSplits(h: Graph, c: set<nat>, rest: set<nat>)
    requires Separated(h, c, rest)
    ensures Pow2(|c|) + Pow2(|rest - c|) <= Pow2(|rest|) + 1
  {
    assert rest == c + (rest - c);
    Pow2Add(|c|, |rest - c|);
    ProductAboveSum(Pow2(|c|), Pow2(|rest - c|));
  }

  lemma {:induction false} ProductAboveSum(a: nat, b: nat)
    requires a > 0 && b > 0
    ensures a + b <= a * b + 1
  {
    assert (a - 1) * (b - 1) == a * b - a - b + 1;
  }

  lemma {:induction false} GraphFacts(h: Graph, todo: set<nat>)
    requires SearchGraph(h, todo)
    ensures WellFormed(h) && PositiveSizes(h) && ByFeerate(h) && todo <= h.used
  {
  }

  lemma {:induction false} NoneCovered(h: Graph, todo: set<nat>)
    ensures InitialQueue(h, todo, [], todo)
  {
  }

  lemma {:induction false} ComponentCandidate(h: Graph, todo: set<nat>, s: SetInfo)
    requires PositiveSizes(h) && todo <= h.used && Separated(h, s.transactions, todo) && s.transactions != {}
    requires s.feerate == SetRate(h, s.transactions)
    ensures Exact(h, s) && Candidate(h, s.transactions, todo) && !IsEmpty(s.feerate)
  {
    SetSizePositive(h, s.transactions);
  }

  /** The initial items are valid, and lead to every best candidate. */
  lemma {:induction false} InitialValid(h: Graph, todo: set<nat>, o: set<nat>, queue: seq<WorkItem>, best: FeeFrac,
      capacity: nat)
    requires SearchGraph(h, todo) && InitialQueue(h, todo, queue, {}) && BestCandidate(h, o, todo) && capacity >= |todo|
    ensures QueueValid(h, todo, queue, best, capacity) && Covers(h, todo, o, queue)
  {
    hide SetRate, Candidate, WellFormed, PositiveSizes, ByFeerate, ItemValid;
    EmptyRate(h);
    forall k {:trigger queue[k]} | 0 <= k < |queue| ensures ItemValid(h, todo, queue[k], best)
        && k + |queue[k].und| <= capacity {
      ComponentItem(h, todo, queue[k], best);
    }
    var x := SomeElement(h, todo, o);
    assert x in todo - {};
    assert Touched(queue, x);
    var k :| 0 <= k < |queue| && x in queue[k].und;
    ComponentReaches(h, todo, o, queue[k].und);
  }

  lemma {:induction false} SomeElement(h: Graph, todo: set<nat>, o: set<nat>) returns (x: nat)
    requires Candidate(h, o, todo)
    ensures x in o && x in todo
  {
    x :| x in o;
  }

  lemma {:induction false} ComponentItem(h: Graph, todo: set<nat>, item: WorkItem, best: FeeFrac)
    requires SetRate(h, {}) == EMPTY && InitialItem(h, todo, item)
    ensures ItemValid(h, todo, item, best)
  {
    hide SetRate;
    assert item.inc.transactions + item.und == item.und;
  }

  // ---- The processing loop ----

  /** What holds between any two items processed. */
  ghost predicate LoopInvariant(h: Graph, todo: set<nat>, o: set<nat>, best0: SetInfo, st: State, capacity: nat) {
    && StateValid(h, todo, st, capacity) && NothingLost(h, todo, o, st)
    && (best0.transactions != {} ==> NotWorse(st.best.feerate, best0.feerate))
  }

  /** Taking item `k` out of the queue and processing it. */
  ghost predicate Taken(st: State, k: nat, elem: WorkItem, rest: State) {
    && k < |st.queue| && elem == st.queue[k] && rest.best == st.best && rest.imp == st.imp
    && rest.queue == st.queue[..k] + st.queue[k + 1..]
  }

  lemma {:induction false} TakenValid(h: Graph, todo: set<nat>, o: set<nat>, best0: SetInfo, st: State, capacity: nat,
      k: nat, elem: WorkItem, rest: State)
    requires LoopInvariant(h, todo, o, best0, st, capacity) && Taken(st, k, elem, rest)
    ensures StateValid(h, todo, rest, capacity) && ItemValid(h, todo, elem, st.best.feerate)
    ensures Covers(h, todo, o, st.queue) ==>
            Covers(h, todo, o, rest.queue) || Reaches(h, todo, o, elem.inc.transactions, elem.und)
  {
    hide ItemValid, BestValid, Reaches, SetRate;
    forall j | 0 <= j < |rest.queue| ensures ItemValid(h, todo, rest.queue[j], st.best.feerate)
        && j + |rest.queue[j].und| <= capacity {
      var i := if j < k then j else j + 1;
      assert rest.queue[j] == st.queue[i];
    }
    if Covers(h, todo, o, st.queue) {
      var i :| 0 <= i < |st.queue| && Reaches(h, todo, o, st.queue[i].inc.transactions, st.queue[i].und);
      if i < k {
        assert rest.queue[i] == st.queue[i];
      } else if i > k {
        assert rest.queue[i - 1] == st.queue[i];
      }
    }
  }

  lemma {:induction false} ProcessedInvariant(h: Graph, todo: set<nat>, o: set<nat>, best0: SetInfo, st: State,
      capacity: nat, k: nat, elem: WorkItem, rest: State, st': State)
    requires SearchGraph(h, todo) && BestCandidate(h, o, todo)
    requires LoopInvariant(h, todo, o, best0, st, capacity) && Taken(st, k, elem, rest)
    requires Processed(h, todo, o, rest, elem.inc.transactions, elem.und, capacity, st')
    requires best0.transactions != {} ==> best0.feerate.size > 0
    ensures LoopInvariant(h, todo, o, best0, st', capacity) && rest.queue <= st'.queue
  {
    hide SetRate, Covers, Reaches, QueueValid, BestCandidate, ByFeerate, WellFormed, PositiveSizes, Improvers,
        Candidate, NotWorse, ItemValid;
    TakenValid(h, todo, o, best0, st, capacity, k, elem, rest);
    CandidatePositive(h, todo, st.best);
    CandidatePositive(h, todo, st'.best);
    if best0.transactions != {} { NotWorseTrans(st'.best.feerate, st.best.feerate, best0.feerate); }
    NotWorseRate(st'.best.feerate, st.best.feerate);
    if Excess(st'.best.feerate, SetRate(h, o)) > 0 {
      BestStillWorse(h, todo, o, st.best.feerate, st'.best.feerate);
    }
  }

  /** Process item `k`. */
  method ProcessItem(h: Graph, todo: set<nat>, best0: SetInfo, st: State, k: nat, ghost capacity: nat,
      ghost o: set<nat>) returns (st': State, split: bool)
    requires SearchGraph(h, todo) && BestCandidate(h, o, todo) && LoopInvariant(h, todo, o, best0, st, capacity)
    requires k < |st.queue| && |st.queue| - 1 + |st.queue[k].und| <= capacity
    requires (best0.transactions != {} ==> best0.feerate.size > 0)
    ensures LoopInvariant(h, todo, o, best0, st', capacity) && (!split ==> |st'.queue| == |st.queue| - 1)
    ensures !split ==> st'.queue == st.queue[..k] + st.queue[k + 1..]
    ensures st.queue[..k] <= st'.queue
    ensures Splits(st'.queue) + (if split then 1 else 0) <= Splits(st.queue)
  {
    hide *;
    SplitsWithout(st.queue, k);
    var elem := st.queue[k];
    var rest := State(st.best, st.imp, st.queue[..k] + st.queue[k + 1..]);
    IsTaken(st, k, elem, rest);
    TakenValid(h, todo, o, best0, st, capacity, k, elem, rest);
    st', split := SplitItem(h, todo, rest, elem, capacity, o);
    ProcessedInvariant(h, todo, o, best0, st, capacity, k, elem, rest, st');
  }

  lemma {:induction false} IsTaken(st: State, k: nat, elem: WorkItem, rest: State)
    requires k < |st.queue| && elem == st.queue[k] && rest == State(st.best, st.imp, st.queue[..k] + st.queue[k + 1..])
    ensures Taken(st, k, elem, rest)
  {
  }

  /** Swapping the first two items keeps the invariant: no item has more undecided transactions
      than there are. */
  lemma {:induction false} SwapInvariant(h: Graph, todo: set<nat>, o: set<nat>, best0: SetInfo, st: State,
      capacity: nat, st': State)
    requires LoopInvariant(h, todo, o, best0, st, capacity) && |st.queue| > 1 && capacity > |todo|
    requires st' == State(st.best, st.imp, [st.queue[1], st.queue[0]] + st.queue[2..])
    ensures LoopInvariant(h, todo, o, best0, st', capacity)
  {
    hide BestValid, QueueValid, Covers;
    SwapValid(h, todo, st.queue, st.best.feerate, capacity);
    SwapCovers(h, todo, o, st.queue);
  }

  function Swapped(queue: seq<WorkItem>): seq<WorkItem>
    requires |queue| > 1
  {
    [queue[1], queue[0]] + queue[2..]
  }

  lemma {:induction false} SwapValid(h: Graph, todo: set<nat>, queue: seq<WorkItem>, best: FeeFrac, capacity: nat)
    requires QueueValid(h, todo, queue, best, capacity) && |queue| > 1 && capacity > |todo|
    ensures QueueValid(h, todo, Swapped(queue), best, capacity)
  {
    var queue' := Swapped(queue);
    forall k {:trigger queue'[k]} | 0 <= k < |queue'|
      ensures ItemValid(h, todo, queue'[k], best) && k + |queue'[k].und| <= capacity
    {
      var i := if k == 0 then 1 else if k == 1 then 0 else k;
      assert queue'[k] == queue[i] && ItemValid(h, todo, queue[i], best);
      ItemFits(h, todo, queue[i], best);
    }
  }

  lemma {:induction false} ItemFits(h: Graph, todo: set<nat>, item: WorkItem, best: FeeFrac)
    requires ItemValid(h, todo, item, best)
    ensures |item.und| <= |todo|
  {
    SubsetCard(item.und, todo);
  }

  lemma {:induction false} SwapCovers(h: Graph, todo: set<nat>, o: set<nat>, queue: seq<WorkItem>)
    requires |queue| > 1
    ensures Covers(h, todo, o, queue) ==> Covers(h, todo, o, Swapped(queue))
  {
    hide Reaches;
    if Covers(h, todo, o, queue) {
      var i :| 0 <= i < |queue| && Reaches(h, todo, o, queue[i].inc.transactions, queue[i].und);
      var k := if i == 0 then 1 else if i == 1 then 0 else i;
      assert Swapped(queue)[k] == queue[i];
    }
  }

  lemma {:induction false} SwapSplits(queue: seq<WorkItem>)
    requires |queue| > 1
    ensures Splits([queue[1], queue[0]] + queue[2..]) == Splits(queue)
  {
    var q := [queue[1], queue[0]] + queue[2..];
    assert q == [queue[1]] + ([queue[0]] + queue[2..]) && queue == [queue[0]] + ([queue[1]] + queue[2..]);
    SplitsConcat([queue[1]], [queue[0]] + queue[2..]);
    SplitsConcat([queue[0]], queue[2..]);
    SplitsConcat([queue[0]], [queue[1]] + queue[2..]);
    SplitsConcat([queue[1]], queue[2..]);
  }

  lemma {:induction false} Fits(h: Graph, todo: set<nat>, o: set<nat>, best0: SetInfo, st: State, capacity: nat, k: nat)
    requires LoopInvariant(h, todo, o, best0, st, capacity) && k < |st.queue|
    ensures k + |st.queue[k].und| <= capacity
  {
    assert QueueValid(h, todo, st.queue, st.best.feerate, capacity);
  }

  lemma {:induction false} StartFacts(h: Graph, todo: set<nat>, best0: SetInfo, start: SetInfo)
    requires SearchGraph(h, todo)
    requires (best0.transactions != {} ==> Exact(h, best0) && Closed(h, best0.transactions, todo))
    requires if best0.transactions != {} then start == best0
            else Exact(h, start) && Candidate(h, start.transactions, todo)
    ensures Exact(h, start) && Candidate(h, start.transactions, todo) && start.feerate.size > 0
    ensures best0.transactions != {} ==> best0.feerate.size > 0 && NotWorse(start.feerate, best0.feerate)
  {
    hide SetRate;
    CandidatePositive(h, todo, start);
  }

  lemma {:induction false} StartInvariant(h: Graph, todo: set<nat>, o: set<nat>, best0: SetInfo, st: State,
      capacity: nat)
    requires SearchGraph(h, todo) && InitialQueue(h, todo, st.queue, {}) && BestCandidate(h, o, todo)
    requires capacity >= |todo|
    requires Exact(h, st.best) && Candidate(h, st.best.transactions, todo)
    requires Improvers(h, st.imp, todo, st.best.feerate)
    requires best0.transactions != {} ==> NotWorse(st.best.feerate, best0.feerate)
    ensures LoopInvariant(h, todo, o, best0, st, capacity)
  {
    hide SetRate, Covers, QueueValid, BestCandidate, SearchGraph, InitialQueue, NotWorse;
    InitialValid(h, todo, o, st.queue, st.best.feerate, capacity);
  }

  lemma {:induction false} SearchDone(h: Graph, todo: set<nat>, o: set<nat>, best0: SetInfo, st: State, capacity: nat)
    requires SearchGraph(h, todo) && BestCandidate(h, o, todo) && LoopInvariant(h, todo, o, best0, st, capacity)
    ensures Exact(h, st.best) && Candidate(h, st.best.transactions, todo)
    ensures best0.transactions != {} ==> NotWorse(st.best.feerate, best0.feerate)
    ensures st.queue == [] ==> BestCandidate(h, st.best.transactions, todo)
  {
    hide SetRate, SetSum, QueueValid, NotWorse;
    if st.queue == [] {
      assert !Covers(h, todo, o, st.queue);
      SetSizePositive(h, o);
      CandidatePositive(h, todo, st.best);
      forall s | Candidate(h, s, todo) ensures SetSum(Slope(h, st.best.feerate), s) <= 0 {
        SetSizePositive(h, s);
        SetExcess(h, SetRate(h, o), s);
        SetExcess(h, st.best.feerate, s);
        FlatterTrans(st.best.feerate, SetRate(h, o), SetRate(h, s));
      }
    }
  }

  /** The search. Fewer splits than allowed means that no candidate has a higher feerate than the
      result; and fewer than 2^n are ever needed for n transactions. */
  method Search(h: Graph, todo: set<nat>, best0: SetInfo, maxIterations: nat) returns (best: SetInfo, iterations: nat)
    requires SearchGraph(h, todo) && todo != {} && (best0.transactions == {} <==> IsEmpty(best0.feerate))
    requires best0.transactions != {} ==> Exact(h, best0) && Closed(h, best0.transactions, todo)
    ensures Exact(h, best) && Candidate(h, best.transactions, todo) && iterations <= maxIterations
    ensures best0.transactions != {} ==> NotWorse(best.feerate, best0.feerate)
    ensures iterations < maxIterations ==> BestCandidate(h, best.transactions, todo)
    ensures iterations < Pow2(|todo|)
  {
    hide *;
    GraphFacts(h, todo);
    ghost var o := BestCandidateExists(h, todo);
    var capacity := if 2 * |todo| > 256 then 2 * |todo| else 256;
    var start, queue := StartQueue(h, todo, best0);
    StartFacts(h, todo, best0, start);
    var imp := TrimImprovers(h, todo, todo, start.feerate);
    var st := State(start, imp, queue);
    StartInvariant(h, todo, o, best0, st, capacity);
    var left: nat := maxIterations;
    while st.queue != []
      invariant LoopInvariant(h, todo, o, best0, st, capacity) && left <= maxIterations
      invariant maxIterations - left + Splits(st.queue) < Pow2(|todo|)
      decreases left, |st.queue|
    {
      var swap: bool := *;
      if |st.queue| > 1 && swap {
        ghost var before := st;
        st := State(st.best, st.imp, [st.queue[1], st.queue[0]] + st.queue[2..]);
        SwapInvariant(h, todo, o, best0, before, capacity, st);
        SwapSplits(before.queue);
      }
      ghost var left0, size0 := left, |st.queue|;
      Fits(h, todo, o, best0, st, capacity, 0);
      while |st.queue| - 1 + |st.queue[0].und| > capacity && left > 0
        invariant LoopInvariant(h, todo, o, best0, st, capacity) && st.queue != []
        invariant left < left0 || (left == left0 && |st.queue| <= size0)
        invariant maxIterations - left + Splits(st.queue) < Pow2(|todo|)
        decreases left, |st.queue|
      {
        Fits(h, todo, o, best0, st, capacity, 0);
        Fits(h, todo, o, best0, st, capacity, |st.queue| - 1);
        var split;
        st, split := ProcessItem(h, todo, best0, st, |st.queue| - 1, capacity, o);
        if split { left := left - 1; }
      }
      if left == 0 { break; }
      var split;
      st, split := ProcessItem(h, todo, best0, st, 0, capacity, o);
      if split { left := left - 1; }
    }
    best, iterations := st.best, maxIterations - left;
    SearchDone(h, todo, o, best0, st, capacity);
  }
}
