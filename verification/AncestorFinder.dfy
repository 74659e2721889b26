/** The best remaining ancestor set (src/cluster_linearize.h, class AncestorCandidateFinder). */
module AncestorFinders {
  import opened FeeFracs
  import opened Sums
  import opened DepGraphs
  import opened LinearizationChunkings

  // ---- The order on fee/size pairs ----

  /** `a` is at least as good as `b`: higher feerate, or equal feerate and no larger size. */
  predicate NotWorse(a: FeeFrac, b: FeeFrac) {
    !Better(b, a)
  }

  lemma {:induction false} NotWorseTrans(a: FeeFrac, b: FeeFrac, c: FeeFrac)
    requires a.size > 0 && b.size > 0 && c.size > 0 && NotWorse(a, b) && NotWorse(b, c)
    ensures NotWorse(a, c)
  {
    assert Excess(a, b) <= 0 && Excess(b, c) <= 0;
    FlatterTrans(a, b, c);
  }

  lemma {:induction false} NotWorseRate(a: FeeFrac, b: FeeFrac)
    requires NotWorse(a, b)
    ensures Excess(a, b) <= 0
  {
  }

  /** The ancestors of `i` that remain. */
  function AncestorSet(g: Graph, i: nat, todo: set<nat>): set<nat> {
    Anc(g, i) * todo
  }

  lemma {:induction false} AncestorSetClosed(g: Graph, i: nat, todo: set<nat>)
    requires WellFormed(g) && todo <= g.used && i in todo
    ensures Closed(g, AncestorSet(g, i, todo), todo) && i in AncestorSet(g, i, todo)
  {
  }

  ghost predicate RatesExact(g: Graph, rates: seq<FeeFrac>, todo: set<nat>) {
    |rates| == |g.entries| && forall i {:trigger rates[i]} :: i in todo && i < |rates| ==>
        rates[i] == SetRate(g, AncestorSet(g, i, todo))
  }

  class AncestorCandidateFinder {
    const g: Graph
    var todo: set<nat>
    var rates: seq<FeeFrac>

    ghost predicate Valid()
      reads this
    {
      todo <= g.used && RatesExact(g, rates, todo)
    }

    constructor (g: Graph)
      requires WellFormed(g)
      ensures this.g == g && Valid() && todo == g.used
    {
      var r := AllAncestorRates(g);
      this.g := g;
      this.todo := g.used;
      this.rates := r;
    }

    /** Remove a set of transactions from the ones to be linearized. */
    method MarkDone(select: set<nat>)
      requires Valid() && WellFormed(g) && select <= todo
      modifies this
      ensures Valid() && todo == old(todo) - select
    {
      hide RatesExact, WellFormed, SetRate, AncestorSet;
      ghost var before := todo;
      todo := todo - select;
      var rest := select;
      assert before == todo + rest;
      RatesSubset(g, rates, before, todo);
      while rest != {}
        invariant rest <= select && todo == before - select && RatesFor(g, rates, todo, todo + rest)
        decreases |rest|
      {
        var i := First(rest);
        rates := RemoveAncestor(g, rates, todo, rest, i);
        rest := rest - {i};
      }
      assert todo + rest == todo;
      RatesDone(g, rates, todo);
    }

    predicate AllDone()
      reads this
    {
      todo == {}
    }

    /** The best ancestor set among the remaining transactions. */
    method FindCandidateSet() returns (r: SetInfo)
      requires Valid() && WellFormed(g) && todo != {}
      ensures Exact(g, r) && r.transactions != {} && Closed(g, r.transactions, todo)
      ensures exists i {:trigger AncestorSet(g, i, todo)} :: i in todo && r.transactions == AncestorSet(g, i, todo)
      ensures forall i {:trigger AncestorSet(g, i, todo)} :: i in todo ==>
                PositiveSizes(g) ==> NotWorse(r.feerate, SetRate(g, AncestorSet(g, i, todo)))
    {
      hide SetRate, WellFormed, PositiveSizes;
      RatesInRange(g, todo);
      var best := First(todo);
      var rest := todo - {best};
      while rest != {}
        invariant rest < todo && best in todo - rest
        invariant PositiveSizes(g) ==>
                forall i {:trigger AncestorSet(g, i, todo)} :: i in todo && i !in rest ==>
                NotWorse(rates[best], rates[i])
        decreases |rest|
      {
        var i := First(rest);
        if PositiveSizes(g) { BestSoFar(g, rates, todo, best, rest, i); }
        if Better(rates[i], rates[best]) { best := i; }
        rest := rest - {i};
      }
      AncestorSetClosed(g, best, todo);
      r := SetInfo(AncestorSet(g, best, todo), rates[best]);
    }
  }

  lemma {:induction false} RatesInRange(g: Graph, todo: set<nat>)
    requires WellFormed(g) && todo <= g.used
    ensures forall i :: i in todo ==> i < |g.entries|
  {
  }

  lemma {:induction false} BestSoFar(g: Graph, rates: seq<FeeFrac>, todo: set<nat>, best: nat, rest: set<nat>, i: nat)
    requires WellFormed(g) && PositiveSizes(g) && todo <= g.used && RatesExact(g, rates, todo) && rest < todo
    requires i in rest && best in todo - rest
    requires forall i :: i in todo ==> i < |rates|
    requires forall j {:trigger AncestorSet(g, j, todo)} :: j in todo && j !in rest ==> NotWorse(rates[best], rates[j])
    ensures Better(rates[i], rates[best]) ==>
              forall j {:trigger AncestorSet(g, j, todo)} :: j in todo && j !in rest ==> NotWorse(rates[i], rates[j])
    ensures NotWorse(rates[i], rates[i])
  {
    if Better(rates[i], rates[best]) {
      RatePositive(g, rates, todo, i);
      RatePositive(g, rates, todo, best);
      assert NotWorse(rates[i], rates[best]);
      forall j {:trigger AncestorSet(g, j, todo)} | j in todo && j !in rest ensures NotWorse(rates[i], rates[j]) {
        RatePositive(g, rates, todo, j);
        assert NotWorse(rates[best], rates[j]);
        NotWorseTrans(rates[i], rates[best], rates[j]);
      }
    }
  }

  lemma {:induction false} RatePositive(g: Graph, rates: seq<FeeFrac>, todo: set<nat>, i: nat)
    requires WellFormed(g) && PositiveSizes(g) && todo <= g.used && RatesExact(g, rates, todo) && i in todo
    requires i < |rates|
    ensures rates[i].size > 0
  {
    AncestorSetClosed(g, i, todo);
    SetSizePositive(g, AncestorSet(g, i, todo));
  }

  // ---- Keeping the rates up to date ----

  /** For the positions of `todo`, the rates are those of the ancestors within `among`. */
  ghost predicate RatesFor(g: Graph, rates: seq<FeeFrac>, todo: set<nat>, among: set<nat>) {
    |rates| == |g.entries| && forall i {:trigger rates[i]} :: i in todo && i < |rates| ==>
        rates[i] == SetRate(g, AncestorSet(g, i, among))
  }

  lemma {:induction false} RatesSubset(g: Graph, rates: seq<FeeFrac>, before: set<nat>, todo: set<nat>)
    requires RatesExact(g, rates, before) && todo <= before
    ensures RatesFor(g, rates, todo, before)
  {
  }

  lemma {:induction false} RatesDone(g: Graph, rates: seq<FeeFrac>, todo: set<nat>)
    requires RatesFor(g, rates, todo, todo)
    ensures RatesExact(g, rates, todo)
  {
  }

  /** Transaction `i` is done: subtract it from the ancestor sets it belongs to. */
  method RemoveAncestor(g: Graph, rates: seq<FeeFrac>, todo: set<nat>, rest: set<nat>, i: nat) returns (r: seq<FeeFrac>)
    requires WellFormed(g) && todo + rest <= g.used && i in rest && i !in todo && RatesFor(g, rates, todo, todo + rest)
    requires i in todo + rest
    ensures RatesFor(g, r, todo, todo + (rest - {i}))
  {
    var feerate := FeeRate(g, i);
    r := rates;
    var left := Desc(g, i) * todo;
    while left != {}
      invariant left <= Desc(g, i) * todo && |r| == |rates|
      invariant forall j {:trigger r[j]} :: 0 <= j < |r| ==>
                  r[j] == if j in Desc(g, i) * todo
                      && j !in left then FeeFrac(rates[j].fee - feerate.fee, rates[j].size - feerate.size) else rates[j]
      decreases |left|
    {
      var j := First(left);
      r := r[j := FeeFrac(r[j].fee - feerate.fee, r[j].size - feerate.size)];
      left := left - {j};
    }
    forall j | j in todo && j < |r| ensures r[j] == SetRate(g, AncestorSet(g, j, todo + (rest - {i}))) {
      RemoveOne(g, j, i, todo + rest);
      assert todo + rest - {i} == todo + (rest - {i});
      assert i in Anc(g, j) <==> j in Desc(g, i);
    }
  }

  lemma {:induction false} RemoveOne(g: Graph, j: nat, i: nat, among: set<nat>)
    requires i in among
    ensures i in Anc(g, j) ==>
              SetRate(g, AncestorSet(g, j, among)).fee == FeeRate(g, i).fee
                  + SetRate(g, AncestorSet(g, j, among - {i})).fee
              && SetRate(g, AncestorSet(g, j, among)).size == FeeRate(g, i).size
                  + SetRate(g, AncestorSet(g, j, among - {i})).size
    ensures i !in Anc(g, j) ==> AncestorSet(g, j, among) == AncestorSet(g, j, among - {i})
  {
    if i in Anc(g, j) {
      SetRateRemove(g, AncestorSet(g, j, among), i);
      assert AncestorSet(g, j, among) - {i} == AncestorSet(g, j, among - {i});
    }
  }

  /** Precompute all ancestor-set feerates, reusing that of the first ancestor where possible. */
  method AllAncestorRates(g: Graph) returns (rates: seq<FeeFrac>)
    requires WellFormed(g)
    ensures RatesExact(g, rates, g.used)
  {
    rates := seq(|g.entries|, _ => EMPTY);
    var rest := g.used;
    while rest != {}
      invariant rest <= g.used && |rates| == |g.entries|
      invariant forall i, j :: i in g.used && i !in rest && j in rest ==> i < j
      invariant forall i {:trigger rates[i]} :: i in g.used && i !in rest && i < |rates| ==>
              rates[i] == SetRate(g, Anc(g, i))
      decreases |rest|
    {
      var i := First(rest);
      var rate := AncestorRate(g, rates, rest, i);
      rates := rates[i := rate];
      rest := rest - {i};
    }
    assert forall i :: i in g.used ==> AncestorSet(g, i, g.used) == Anc(g, i);
  }

  method AncestorRate(g: Graph, rates: seq<FeeFrac>, rest: set<nat>, i: nat) returns (rate: FeeFrac)
    requires WellFormed(g) && rest <= g.used && i in rest && |rates| == |g.entries| && forall j :: j in rest ==> i <= j
    requires forall k {:trigger rates[k]} :: k in g.used && k !in rest && k < |rates| ==>
            rates[k] == SetRate(g, Anc(g, k))
    ensures rate == SetRate(g, Anc(g, i))
  {
    hide SetRate;
    var toAdd := Anc(g, i);
    rate := EMPTY;
    assert i in toAdd;
    var first := First(toAdd);
    ghost var reused: set<nat> := {};
    SetSumEmpty(FeeOf(g));
    SetSumEmpty(SizeOf(g));
    EmptyRate(g);
    if first < i {
      assert first in g.used && first !in rest;
      rate := rates[first];
      toAdd := toAdd - Anc(g, first);
      reused := Anc(g, first);
    }
    var more := SumRate(g, toAdd);
    rate := FeeFrac(rate.fee + more.fee, rate.size + more.size);
    assert reused + toAdd == Anc(g, i);
    SetRateUnion(g, reused, toAdd);
  }

  lemma {:induction false} EmptyRate(g: Graph)
    ensures SetRate(g, {}) == EMPTY
  {
    SetSumEmpty(FeeOf(g));
    SetSumEmpty(SizeOf(g));
  }
}
