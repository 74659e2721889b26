/** The candidate finder on the original positions: sort, remap, search, map back
    (src/cluster_linearize.h, class SearchCandidateFinder). */
module SearchFinders {
  import opened FeeFracs
  import opened Sums
  import opened DepGraphs
  import opened DepGraphObjects
  import opened LinearizationChunkings
  import opened AncestorFinders
  import opened SearchTheory
  import opened Searching
  import opened SearchLoops
  import opened Powers

  // ---- Sorting positions by decreasing feerate ----

  /** The comparator of the sort. */
  predicate Before(g: Graph, a: nat, b: nat) {
    Better(FeeRate(g, a), FeeRate(g, b)) || (!Better(FeeRate(g, b), FeeRate(g, a)) && a < b)
  }

  ghost predicate SortedBefore(g: Graph, s: seq<nat>) {
    forall i, j :: 0 <= i < j < |s| ==> Before(g, s[i], s[j])
  }

  lemma {:induction false} BeforeTrans(g: Graph, a: nat, b: nat, c: nat)
    requires FeeRate(g, a).size > 0 && FeeRate(g, b).size > 0 && FeeRate(g, c).size > 0 && Before(g, a, b)
    requires Before(g, b, c)
    ensures Before(g, a, c)
  {
    var x, y, z := FeeRate(g, a), FeeRate(g, b), FeeRate(g, c);
    NotWorseTrans(x, y, z);
    if !Better(x, z) {
      NotWorseTrans(z, x, y);
      NotWorseTrans(y, z, x);
    }
  }

  /** The position that precedes all others of `rest`. */
  method FirstBefore(g: Graph, rest: set<nat>) returns (r: nat)
    requires PositiveSizes(g) && rest <= g.used && rest != {}
    ensures r in rest && forall u :: u in rest && u != r ==> Before(g, r, u)
  {
    hide Before;
    r := First(rest);
    var left := rest - {r};
    while left != {}
      invariant left < rest && r in rest - left
      invariant forall u :: u in rest - left && u != r ==> Before(g, r, u)
      decreases |left|
    {
      var t := First(left);
      if Before(g, t, r) {
        forall u | u in rest - (left - {t}) && u != t ensures Before(g, t, u) {
          if u != r { BeforeTrans(g, t, r, u); }
        }
        r := t;
      } else {
        BeforeTotal(g, r, t);
      }
      left := left - {t};
    }
  }

  lemma {:induction false} BeforeTotal(g: Graph, a: nat, b: nat)
    requires a != b && !Before(g, b, a)
    ensures Before(g, a, b)
  {
  }

  method SortPositions(g: Graph) returns (s: seq<nat>)
    requires PositiveSizes(g)
    ensures Distinct(s) && Elems(s) == g.used && SortedBefore(g, s)
  {
    hide Before;
    s := [];
    var rest := g.used;
    while rest != {}
      invariant rest <= g.used && Distinct(s) && Elems(s) == g.used - rest && SortedBefore(g, s)
      invariant forall i, u :: 0 <= i < |s| && u in rest ==> Before(g, s[i], u)
      decreases |rest|
    {
      var x := FirstBefore(g, rest);
      AppendSorted(g, s, rest, x);
      s := s + [x];
      rest := rest - {x};
    }
  }

  lemma {:induction false} AppendSorted(g: Graph, s: seq<nat>, rest: set<nat>, x: nat)
    requires rest <= g.used && Distinct(s) && Elems(s) == g.used - rest && SortedBefore(g, s) && x in rest
    requires forall i, u :: 0 <= i < |s| && u in rest ==> Before(g, s[i], u)
    ensures Distinct(s + [x]) && Elems(s + [x]) == g.used - (rest - {x}) && SortedBefore(g, s + [x])
  {
    hide Before;
    assert Elems([x]) == {x};
    ElemsConcat(s, [x]);
    assert Elems(s) !! {x};
    DistinctConcat(s, [x]);
  }

  /** The inverse of a listing of positions. */
  method Invert(s: seq<nat>, n: nat) returns (r: seq<nat>)
    requires Distinct(s) && forall i :: i in Elems(s) ==> i < n
    ensures |r| == n && forall k :: 0 <= k < |s| ==> At(r, s[k]) == k
  {
    r := seq(n, _ => 0);
    for k := 0 to |s|
      invariant |r| == n && forall j :: 0 <= j < k ==> At(r, s[j]) == j
    {
      assert s[k] in Elems(s);
      ghost var before := r;
      r := r[s[k] := k];
      forall j | 0 <= j < k ensures At(r, s[j]) == j {
        assert s[j] in Elems(s) && At(before, s[j]) == j && s[j] != s[k];
      }
    }
  }

  // ---- Moving sets between the two orders ----

  /** `h` is `g` moved by `to`, which `back` undoes. */
  ghost predicate Mapped(g: Graph, h: Graph, to: seq<nat>, back: seq<nat>) {
    && IsRemapped(g, h, to) && WellFormed(g) && WellFormed(h)
    && forall i {:trigger At(to, i)} :: i in g.used ==> At(back, At(to, i)) == i
  }

  lemma {:induction false} ImageBack(g: Graph, h: Graph, to: seq<nat>, back: seq<nat>, s: set<nat>)
    requires Mapped(g, h, to, back) && s <= g.used
    ensures Image(back, Image(to, s)) == s && Image(to, s) <= h.used && (s == {} <==> Image(to, s) == {})
  {
    assert forall i :: i in s ==> At(to, i) in Image(to, s);
  }

  lemma {:induction false} ImageTo(g: Graph, h: Graph, to: seq<nat>, back: seq<nat>, t: set<nat>)
    requires Mapped(g, h, to, back) && t <= h.used
    ensures Image(to, Image(back, t)) == t && Image(back, t) <= g.used && (t == {} <==> Image(back, t) == {})
  {
    forall x | x in t ensures At(back, x) in g.used && At(to, At(back, x)) == x {
      var i :| i in g.used && At(to, i) == x;
    }
    assert forall x :: x in t ==> At(back, x) in Image(back, t);
  }

  lemma {:induction false} SumMoved(w: Weight, v: Weight, to: seq<nat>, s: set<nat>)
    requires InjectiveOn(to, s) && forall i :: i in s ==> v(At(to, i)) == w(i)
    ensures SetSum(v, Image(to, s)) == SetSum(w, s)
    decreases |s|
  {
    hide SetSum;
    if s == {} {
      assert Image(to, s) == {};
      SetSumEmpty(v);
      SetSumEmpty(w);
    } else {
      var x :| x in s;
      assert At(to, x) in Image(to, s);
      assert Image(to, s) - {At(to, x)} == Image(to, s - {x});
      SumMoved(w, v, to, s - {x});
      SetSumRemove(w, s, x);
      SetSumRemove(v, Image(to, s), At(to, x));
    }
  }

  lemma {:induction false} RateMoved(g: Graph, h: Graph, to: seq<nat>, back: seq<nat>, s: set<nat>)
    requires Mapped(g, h, to, back) && s <= g.used
    ensures SetRate(h, Image(to, s)) == SetRate(g, s)
  {
    hide SetSum, WellFormed;
    assert InjectiveOn(to, s);
    SumMoved(FeeOf(g), FeeOf(h), to, s);
    SumMoved(SizeOf(g), SizeOf(h), to, s);
  }

  lemma {:induction false} ClosedMoved(g: Graph, h: Graph, to: seq<nat>, back: seq<nat>, s: set<nat>, todo: set<nat>)
    requires Mapped(g, h, to, back) && s <= g.used && todo <= g.used
    ensures Closed(g, s, todo) <==> Closed(h, Image(to, s), Image(to, todo))
  {
    hide WellFormed;
    ImageMembers(g, h, to, back, s);
    ImageMembers(g, h, to, back, todo);
    if Closed(g, s, todo) {
      forall x, a | x in Image(to, s) && a in Anc(h, x) * Image(to, todo) ensures a in Image(to, s) {
        var i :| i in s && x == At(to, i);
        var j :| j in todo && a == At(to, j);
        assert j in Anc(g, i);
      }
    }
    if Closed(h, Image(to, s), Image(to, todo)) {
      forall i, j | i in s && j in Anc(g, i) * todo ensures j in s {
        assert At(to, i) in Image(to, s) && At(to, j) in Anc(h, At(to, i)) * Image(to, todo);
      }
    }
  }

  lemma {:induction false} ImageMembers(g: Graph, h: Graph, to: seq<nat>, back: seq<nat>, s: set<nat>)
    requires Mapped(g, h, to, back) && s <= g.used
    ensures forall i {:trigger At(to, i)} :: i in g.used ==> (i in s <==> At(to, i) in Image(to, s))
  {
  }

  /** A best candidate of the moved graph is one of the original. */
  lemma {:induction false} BestMoved(g: Graph, h: Graph, to: seq<nat>, back: seq<nat>, o: set<nat>, todo: set<nat>)
    requires Mapped(g, h, to, back) && o <= g.used && todo <= g.used && BestCandidate(h, Image(to, o), Image(to, todo))
    ensures BestCandidate(g, o, todo)
  {
    hide SetSum, SetRate, Closed, Mapped;
    CandidateMoved(g, h, to, back, o, todo);
    RateMoved(g, h, to, back, o);
    var rate := SetRate(g, o);
    forall s | Candidate(g, s, todo) ensures SetSum(Slope(g, rate), s) <= 0 {
      CandidateWithin(g, s, todo);
      CandidateMoved(g, h, to, back, s, todo);
      RateMoved(g, h, to, back, s);
      SetExcess(g, rate, s);
      SetExcess(h, rate, Image(to, s));
    }
  }

  lemma {:induction false} CandidateWithin(g: Graph, s: set<nat>, todo: set<nat>)
    requires Candidate(g, s, todo)
    ensures s <= todo && s != {} && Closed(g, s, todo)
  {
  }

  lemma {:induction false} CandidateMoved(g: Graph, h: Graph, to: seq<nat>, back: seq<nat>, s: set<nat>, todo: set<nat>)
    requires Mapped(g, h, to, back) && s <= g.used && todo <= g.used
    ensures Candidate(g, s, todo) <==> Candidate(h, Image(to, s), Image(to, todo))
  {
    hide Mapped, Closed;
    ImageBack(g, h, to, back, s);
    ClosedMoved(g, h, to, back, s, todo);
  }

  // ---- The finder ----

  /** The sorted graph, and the mappings to and from it. */
  method SortGraph(g: Graph) returns (h: Graph, to: seq<nat>, back: seq<nat>)
    requires Cluster(g)
    ensures Mapped(g, h, to, back) && SearchGraph(h, h.used)
  {
    hide *;
    ClusterFacts(g);
    back := SortPositions(g);
    to := Invert(back, |g.entries|);
    SortArguments(g, to, back);
    h := Remap(g, to, |back|);
    SortedGraph(g, h, to, back);
  }

  lemma {:induction false} ClusterFacts(g: Graph)
    requires Cluster(g)
    ensures WellFormed(g) && Acyclic(g) && PositiveSizes(g) && forall i :: i in g.used ==> i < |g.entries|
  {
  }

  lemma {:induction false} SortArguments(g: Graph, to: seq<nat>, back: seq<nat>)
    requires Distinct(back) && Elems(back) == g.used && |to| == |g.entries|
    requires forall k :: 0 <= k < |back| ==> At(to, back[k]) == k
    ensures RemapArguments(g, to, |back|) && forall i {:trigger At(to, i)} :: i in g.used ==> At(back, At(to, i)) == i
  {
    forall i {:trigger At(to, i)} | i in g.used ensures At(to, i) < |back| && At(back, At(to, i)) == i {
      assert i in Elems(back);
      var k :| 0 <= k < |back| && back[k] == i;
    }
    assert InjectiveOn(to, g.used);
    assert back != [] ==> back[0] in Elems(back);
    if g.used != {} {
      var last := |back| - 1;
      assert back[last] in Elems(back);
      assert At(to, back[last]) in Image(to, g.used);
    }
  }

  lemma {:induction false} SortedGraph(g: Graph, h: Graph, to: seq<nat>, back: seq<nat>)
    requires Cluster(g) && WellFormed(h) && IsRemapped(g, h, to) && Elems(back) == g.used && SortedBefore(g, back)
    requires forall i {:trigger At(to, i)} :: i in g.used ==> At(back, At(to, i)) == i
    requires forall i :: i in g.used ==> At(to, i) < |back|
    ensures Mapped(g, h, to, back) && SearchGraph(h, h.used)
  {
    hide WellFormed, RemapSound, RemapComplete, Acyclic;
    forall x | x in h.used ensures x < |back| && back[x] in g.used && FeeRate(h, x) == FeeRate(g, back[x]) {
      var i :| i in g.used && At(to, i) == x;
      assert At(back, x) == i;
    }
    forall x, y | x in h.used && y in h.used && x < y ensures Excess(FeeRate(h, x), FeeRate(h, y)) <= 0 {
      assert Before(g, back[x], back[y]);
    }
  }

  class SearchCandidateFinder {
    const g: Graph
    const sorted: Graph
    const originalToSorted: seq<nat>
    const sortedToOriginal: seq<nat>
    var todo: set<nat>

    ghost predicate Valid()
      reads this
    {
      Mapped(g, sorted, originalToSorted, sortedToOriginal) && SearchGraph(sorted, todo)
    }

    /** What remains, in original positions. */
    ghost function Remaining(): set<nat>
      reads this
    {
      Image(sortedToOriginal, todo)
    }

    constructor (g: Graph)
      requires Cluster(g)
      ensures this.g == g && Valid() && Remaining() == g.used
    {
      var h, to, back := SortGraph(g);
      this.g, sorted, originalToSorted, sortedToOriginal, todo := g, h, to, back, h.used;
      new;
      ImageBack(g, h, to, back, g.used);
    }

    predicate AllDone()
      reads this
    {
      todo == {}
    }

    method MarkDone(done: set<nat>)
      requires Valid() && done <= Remaining()
      modifies this`todo
      ensures Valid() && Remaining() == old(Remaining()) - done
    {
      MarkedDone(g, sorted, originalToSorted, sortedToOriginal, todo, done);
      todo := todo - Image(originalToSorted, done);
    }

    /** A set at least as good as `best`; the best there is if fewer than `maxIterations` splits
        were needed. */
    method FindCandidateSet(maxIterations: nat, best: SetInfo) returns (r: SetInfo, iterations: nat)
      requires Valid() && Remaining() != {} && (best.transactions == {} <==> IsEmpty(best.feerate))
      requires best.transactions != {} ==> Exact(g, best) && Closed(g, best.transactions, Remaining())
      ensures Exact(g, r) && Candidate(g, r.transactions, Remaining()) && iterations <= maxIterations
      ensures best.transactions != {} ==> NotWorse(r.feerate, best.feerate)
      ensures iterations < maxIterations ==> BestCandidate(g, r.transactions, Remaining())
      ensures iterations < Pow2(|Remaining()|)
    {
      hide *;
      ghost var rem := Remaining();
      var start := best.(transactions := Image(originalToSorted, best.transactions));
      FinderValid(this);
      StartMoved(g, sorted, originalToSorted, sortedToOriginal, best, start, rem, todo);
      SameCount(g, sorted, originalToSorted, sortedToOriginal, todo);
      var found;
      found, iterations := Search(sorted, todo, start, maxIterations);
      r := found.(transactions := Image(sortedToOriginal, found.transactions));
      FoundMoved(g, sorted, originalToSorted, sortedToOriginal, found, r, rem, todo);
    }
  }

  lemma {:induction false} SameCount(g: Graph, h: Graph, to: seq<nat>, back: seq<nat>, todo: set<nat>)
    requires Mapped(g, h, to, back) && SearchGraph(h, todo)
    ensures |Image(back, todo)| == |todo|
  {
    ImageTo(g, h, to, back, todo);
    ImageSmaller(back, todo);
    ImageSmaller(to, Image(back, todo));
  }

  lemma {:induction false} ImageSmaller(mapping: seq<nat>, s: set<nat>)
    ensures |Image(mapping, s)| <= |s|
  {
    if s == {} {
      assert Image(mapping, s) == {};
    } else {
      var x :| x in s;
      ImageSmaller(mapping, s - {x});
      assert Image(mapping, s) == Image(mapping, s - {x}) + {At(mapping, x)};
    }
  }

  lemma {:induction false} FinderValid(f: SearchCandidateFinder)
    requires f.Valid()
    ensures Mapped(f.g, f.sorted, f.originalToSorted, f.sortedToOriginal) && SearchGraph(f.sorted, f.todo)
    ensures f.Remaining() == Image(f.sortedToOriginal, f.todo)
  {
  }

  lemma {:induction false} MarkedDone(g: Graph, h: Graph, to: seq<nat>, back: seq<nat>, todo: set<nat>, done: set<nat>)
    requires Mapped(g, h, to, back) && todo <= h.used && done <= Image(back, todo)
    ensures Image(back, todo - Image(to, done)) == Image(back, todo) - done
  {
    ImageTo(g, h, to, back, todo);
    forall x | x in todo ensures At(back, x) in done <==> x in Image(to, done) {
      assert x in Image(to, Image(back, todo));
      var i :| i in g.used && At(to, i) == x;
      if x in Image(to, done) {
        var j :| j in done && At(to, j) == x;
        assert At(back, At(to, j)) == j;
      }
    }
  }

  lemma {:induction false} StartMoved(g: Graph, h: Graph, to: seq<nat>, back: seq<nat>, best: SetInfo, start: SetInfo,
      rem: set<nat>, todo: set<nat>)
    requires Mapped(g, h, to, back) && SearchGraph(h, todo) && rem == Image(back, todo) && rem != {}
    requires best.transactions == {} <==> IsEmpty(best.feerate)
    requires best.transactions != {} ==> Exact(g, best) && Closed(g, best.transactions, rem)
    requires start == SetInfo(Image(to, best.transactions), best.feerate)
    ensures todo != {} && (start.transactions == {} <==> IsEmpty(start.feerate))
    ensures (best.transactions != {} <==> start.transactions != {})
    ensures start.transactions != {} ==> Exact(h, start) && Closed(h, start.transactions, todo)
  {
    hide Mapped, SetRate, WellFormed, PositiveSizes, ByFeerate;
    ImageTo(g, h, to, back, todo);
    if best.transactions != {} {
      ImageBack(g, h, to, back, best.transactions);
      ClosedMoved(g, h, to, back, best.transactions, rem);
      RateMoved(g, h, to, back, best.transactions);
    } else {
      assert start.transactions == {};
    }
  }

  lemma {:induction false} FoundMoved(g: Graph, h: Graph, to: seq<nat>, back: seq<nat>, found: SetInfo, r: SetInfo,
      rem: set<nat>, todo: set<nat>)
    requires Mapped(g, h, to, back) && SearchGraph(h, todo) && rem == Image(back, todo)
    requires r == SetInfo(Image(back, found.transactions), found.feerate)
    requires Exact(h, found) && Candidate(h, found.transactions, todo)
    ensures Exact(g, r) && Candidate(g, r.transactions, rem)
    ensures BestCandidate(h, found.transactions, todo) ==> BestCandidate(g, r.transactions, rem)
  {
    hide Mapped, SetRate, WellFormed, PositiveSizes, ByFeerate, BestCandidate;
    ImageTo(g, h, to, back, todo);
    ImageTo(g, h, to, back, found.transactions);
    CandidateMoved(g, h, to, back, r.transactions, rem);
    RateMoved(g, h, to, back, r.transactions);
    if BestCandidate(h, found.transactions, todo) {
      BestMoved(g, h, to, back, r.transactions, rem);
    }
  }
}
