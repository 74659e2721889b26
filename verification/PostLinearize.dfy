/** PostLinearize on its linked entries (src/cluster_linearize.h, PostLinearize).

    Groups are singly linked lists of transactions, from back to front, and form a singly linked
    circular list through a sentinel. Transaction t is at index t + 1, the sentinel at index 0. */
module PostLinearization {
  import opened FeeFracs
  import opened Sums
  import opened DepGraphs
  import opened Chunking
  import opened Diagrams
  import opened GroupPasses
  import opened PassTheorems
  import opened PostLinearizeSpec

  const SENTINEL := 0
  const NO_PREV_TX := 0

  /** The fields other than `prevTx` are only used for the last transaction of a group. */
  datatype TxEntry = TxEntry(
    prevTx: nat,
    firstTx: nat,
    prevGroup: nat,
    group: set<nat>,
    deps: set<nat>,
    feerate: FeeFrac)

  // ---- What the entries represent ----

  /** The union of the ancestors of the transactions of a group. */
  ghost function DepsOf(g: Graph, seg: seq<nat>): set<nat> {
    if seg == [] then {} else Anc(g, seg[0]) + DepsOf(g, seg[1..])
  }

  lemma {:induction false} DepsConcat(g: Graph, a: seq<nat>, b: seq<nat>)
    ensures DepsOf(g, a + b) == DepsOf(g, a) + DepsOf(g, b)
  {
    if a == [] {
      assert a + b == b;
    } else {
      assert (a + b)[1..] == a[1..] + b;
      DepsConcat(g, a[1..], b);
    }
  }

  lemma {:induction false} DepsMember(g: Graph, seg: seq<nat>, a: nat)
    ensures a in DepsOf(g, seg) <==> exists x :: x in seg && a in Anc(g, x)
  {
    if seg != [] {
      DepsMember(g, seg[1..], a);
      assert forall x :: x in seg <==> x == seg[0] || x in seg[1..];
    }
  }

  lemma {:induction false} DepsOverlap(g: Graph, c: seq<nat>, p: seq<nat>)
    ensures DepsOf(g, c) * Elems(p) != {} <==> Depends(g, c, p)
  {
    if DepsOf(g, c) * Elems(p) != {} {
      var a :| a in DepsOf(g, c) * Elems(p);
      DepsMember(g, c, a);
      var x :| x in c && a in Anc(g, x);
      assert a in Anc(g, x) * Elems(p);
    }
    if Depends(g, c, p) {
      var x :| x in c && Anc(g, x) * Elems(p) != {};
      var a :| a in Anc(g, x) * Elems(p);
      DepsMember(g, c, a);
      assert a in DepsOf(g, c) * Elems(p);
    }
  }

  /** Index of the last transaction of a group. */
  function Tail(seg: seq<nat>): nat {
    if seg == [] then 0 else seg[|seg| - 1] + 1
  }

  function EndOf(groups: seq<seq<nat>>, start: nat): nat {
    if groups == [] then start else Tail(groups[|groups| - 1])
  }

  ghost predicate ChainLink(es: seq<TxEntry>, seg: seq<nat>, i: nat)
    requires i < |seg|
  {
    seg[i] + 1 < |es| && es[seg[i] + 1].prevTx == if i == 0 then NO_PREV_TX else seg[i - 1] + 1
  }

  /** The chain of `prevTx` links through a group. */
  ghost predicate Chained(es: seq<TxEntry>, seg: seq<nat>) {
    forall i: nat {:trigger ChainLink(es, seg, i)} :: i < |seg| ==> ChainLink(es, seg, i)
  }

  /** The summary kept at the tail of a group. */
  ghost predicate Summary(g: Graph, e: TxEntry, seg: seq<nat>, prev: nat)
    requires seg != []
  {
    e.prevGroup == prev && e.firstTx == seg[0] + 1 && e.group == Elems(seg) && e.deps == DepsOf(g, seg)
        && e.feerate == SeqRate(g, seg)
  }

  ghost predicate GroupAt(g: Graph, es: seq<TxEntry>, seg: seq<nat>, prev: nat) {
    seg != [] && Chained(es, seg) && Tail(seg) < |es| && Summary(g, es[Tail(seg)], seg, prev)
  }

  /** A list of groups, the first one pointing back to `start`. */
  ghost predicate ListAt(g: Graph, es: seq<TxEntry>, groups: seq<seq<nat>>, start: nat) {
    groups == [] || (GroupAt(g, es, groups[0], start) && ListAt(g, es, groups[1..], Tail(groups[0])))
  }

  /** The whole structure while group `c` is between `front` and `back`. */
  ghost predicate Linked(g: Graph, es: seq<TxEntry>, front: seq<seq<nat>>, c: seq<nat>, back: seq<seq<nat>>) {
    && es != [] && es[SENTINEL].feerate == EMPTY && es[SENTINEL].prevGroup == EndOf(back, Tail(c))
    && ListAt(g, es, front, SENTINEL) && GroupAt(g, es, c, EndOf(front, SENTINEL)) && ListAt(g, es, back, Tail(c))
    && Distinct(Flatten(front) + c + Flatten(back))
  }

  /** The structure between two insertions. */
  ghost predicate Stored(g: Graph, es: seq<TxEntry>, groups: seq<seq<nat>>) {
    && es != [] && es[SENTINEL].feerate == EMPTY && es[SENTINEL].prevGroup == EndOf(groups, SENTINEL)
    && ListAt(g, es, groups, SENTINEL) && Distinct(Flatten(groups))
  }

  ghost predicate SameOn(es: seq<TxEntry>, fs: seq<TxEntry>, s: set<nat>) {
    |es| == |fs| && forall x {:trigger x in s} :: x in s && x + 1 < |es| ==> es[x + 1] == fs[x + 1]
  }

  lemma {:induction false} GroupFrame(g: Graph, es: seq<TxEntry>, fs: seq<TxEntry>, seg: seq<nat>, prev: nat)
    requires GroupAt(g, es, seg, prev) && SameOn(es, fs, Elems(seg))
    ensures GroupAt(g, fs, seg, prev)
  {
    forall i: nat | i < |seg| ensures ChainLink(fs, seg, i) {
      assert ChainLink(es, seg, i) && seg[i] in Elems(seg);
    }
    assert ChainLink(es, seg, |seg| - 1) && seg[|seg| - 1] in Elems(seg);
  }

  lemma {:induction false} ListFrame(g: Graph, es: seq<TxEntry>, fs: seq<TxEntry>, groups: seq<seq<nat>>, start: nat)
    requires ListAt(g, es, groups, start) && SameOn(es, fs, Elems(Flatten(groups)))
    ensures ListAt(g, fs, groups, start)
    decreases |groups|
  {
    if groups != [] {
      hide GroupAt;
      ElemsConcat(groups[0], Flatten(groups[1..]));
      GroupFrame(g, es, fs, groups[0], start);
      ListFrame(g, es, fs, groups[1..], Tail(groups[0]));
    }
  }

  lemma {:induction false} ListConcat(g: Graph, es: seq<TxEntry>, a: seq<seq<nat>>, b: seq<seq<nat>>, start: nat)
    ensures ListAt(g, es, a + b, start) <==> ListAt(g, es, a, start) && ListAt(g, es, b, EndOf(a, start))
    ensures EndOf(a + b, start) == EndOf(b, EndOf(a, start))
    decreases |a|
  {
    hide GroupAt;
    if a == [] {
      assert a + b == b;
    } else {
      assert (a + b)[1..] == a[1..] + b;
      ListConcat(g, es, a[1..], b, Tail(a[0]));
    }
  }

  lemma {:induction false} ListSingle(g: Graph, es: seq<TxEntry>, seg: seq<nat>, start: nat)
    ensures ListAt(g, es, [seg], start) <==> GroupAt(g, es, seg, start)
  {
    hide GroupAt;
    assert [seg][1..] == [];
    assert ListAt(g, es, [], Tail(seg));
  }

  lemma {:induction false} ListSnoc(g: Graph, es: seq<TxEntry>, a: seq<seq<nat>>, seg: seq<nat>, start: nat)
    ensures ListAt(g, es, a + [seg], start) <==> ListAt(g, es, a, start) && GroupAt(g, es, seg, EndOf(a, start))
  {
    hide GroupAt, ListAt;
    ListConcat(g, es, a, [seg], start);
    ListSingle(g, es, seg, EndOf(a, start));
  }

  lemma {:induction false} LinkedStored(g: Graph, es: seq<TxEntry>, front: seq<seq<nat>>, c: seq<nat>,
      back: seq<seq<nat>>)
    requires Linked(g, es, front, c, back)
    ensures Stored(g, es, front + [c] + back)
  {
    hide GroupAt, ListAt;
    ListSnoc(g, es, front, c, SENTINEL);
    ListConcat(g, es, front + [c], back, SENTINEL);
    FlattenConcat(front + [c], back);
    FlattenSnoc(front, c);
  }

  // ---- Appending a transaction ----

  lemma {:induction false} AppendLinked(g: Graph, es: seq<TxEntry>, fs: seq<TxEntry>, groups: seq<seq<nat>>, idx: nat)
    requires Stored(g, es, groups) && idx !in Elems(Flatten(groups)) && idx + 1 < |es| == |fs|
    requires fs == es[idx + 1 :=
              TxEntry(NO_PREV_TX, idx + 1, es[SENTINEL].prevGroup, {idx}, Anc(g, idx), FeeRate(g, idx))]
                     [SENTINEL := es[SENTINEL].(prevGroup := idx + 1)]
    ensures Linked(g, fs, groups, [idx], [])
  {
    assert SameOn(es, fs, Elems(Flatten(groups)));
    ListFrame(g, es, fs, groups, SENTINEL);
    SeqRateSingleton(g, idx);
    assert [idx][1..] == [];
    assert DepsOf(g, []) == {};
    assert DepsOf(g, [idx]) == Anc(g, idx);
    assert ChainLink(fs, [idx], 0);
    assert Elems([idx]) == {idx};
    DistinctConcat(Flatten(groups), [idx]);
    assert Flatten(groups) + [idx] + Flatten([]) == Flatten(groups) + [idx];
  }

  // ---- Merging ----

  /** The entry updates of a merge of the group with tail `prev` into that with tail `cur`. */
  function MergeEntries(es: seq<TxEntry>, cur: nat, prev: nat): (fs: seq<TxEntry>)
    requires cur < |es| && prev < |es| && es[cur].firstTx < |es|
    ensures |fs| == |es|
  {
    var e, p := es[cur], es[prev];
    var fs := es[cur := e.(group := e.group + p.group, deps := e.deps + p.deps,
                           feerate := FeeFrac(e.feerate.fee + p.feerate.fee, e.feerate.size + p.feerate.size))];
    var gs := fs[e.firstTx := fs[e.firstTx].(prevTx := prev)];
    gs[cur := gs[cur].(firstTx := p.firstTx, prevGroup := p.prevGroup)]
  }

  /** What a merge changes, index by index. */
  lemma {:induction false} MergeFields(es: seq<TxEntry>, cur: nat, prev: nat)
    requires cur < |es| && prev < |es| && es[cur].firstTx < |es|
    ensures var fs, e, p := MergeEntries(es, cur, prev), es[cur], es[prev];
            && (forall k: nat {:trigger fs[k]} :: k < |es| ==>
                fs[k].prevTx == if k == e.firstTx then prev else es[k].prevTx)
            && (forall k: nat {:trigger fs[k]} :: k < |es| && k != cur && k != e.firstTx ==> fs[k] == es[k])
            && fs[cur].firstTx == p.firstTx && fs[cur].prevGroup == p.prevGroup
            && fs[cur].group == e.group + p.group && fs[cur].deps == e.deps + p.deps
            && fs[cur].feerate == FeeFrac(e.feerate.fee + p.feerate.fee, e.feerate.size + p.feerate.size)
  {
  }

  lemma {:induction false} MergeEntriesGroup(g: Graph, es: seq<TxEntry>, p: seq<nat>, c: seq<nat>, start: nat)
    requires GroupAt(g, es, p, start) && GroupAt(g, es, c, Tail(p)) && Distinct(p + c)
    ensures Tail(c) < |es| && Tail(p) < |es| && es[Tail(c)].firstTx < |es|
    ensures GroupAt(g, MergeEntries(es, Tail(c), Tail(p)), p + c, start)
    ensures forall x: nat :: x !in c && x + 1 < |es| ==> MergeEntries(es, Tail(c), Tail(p))[x + 1] == es[x + 1]
    ensures MergeEntries(es, Tail(c), Tail(p))[SENTINEL] == es[SENTINEL]
  {
    hide MergeEntries, Elems, DepsOf, SeqRate, Distinct;
    assert ChainLink(es, c, 0) && c[0] in c && c[|c| - 1] in c;
    var fs := MergeEntries(es, Tail(c), Tail(p));
    MergeFields(es, Tail(c), Tail(p));
    MergeChained(es, fs, p, c);
    MergeSummary(g, es, fs, p, c, start);
  }

  lemma {:induction false} MergeSummary(g: Graph, es: seq<TxEntry>, fs: seq<TxEntry>, p: seq<nat>, c: seq<nat>,
      start: nat)
    requires p != [] && c != [] && |fs| == |es| && Tail(p) < |es| && Tail(c) < |es|
    requires Summary(g, es[Tail(p)], p, start) && Summary(g, es[Tail(c)], c, Tail(p))
    requires var f, e, q := fs[Tail(c)], es[Tail(c)], es[Tail(p)];
             f.firstTx == q.firstTx && f.prevGroup == q.prevGroup && f.group == e.group + q.group
                 && f.deps == e.deps + q.deps
             && f.feerate == FeeFrac(e.feerate.fee + q.feerate.fee, e.feerate.size + q.feerate.size)
    ensures Tail(p + c) == Tail(c) && Summary(g, fs[Tail(p + c)], p + c, start)
  {
    hide Elems, DepsOf, SeqRate;
    SeqRateConcat(g, p, c);
    DepsConcat(g, p, c);
    ElemsConcat(p, c);
    assert (p + c)[0] == p[0];
    assert SeqRate(g, p + c) == fs[Tail(c)].feerate;
  }

  lemma {:induction false} MergeChained(es: seq<TxEntry>, fs: seq<TxEntry>, p: seq<nat>, c: seq<nat>)
    requires p != [] && c != [] && Chained(es, p) && Chained(es, c) && Distinct(p + c) && |fs| == |es|
    requires forall k: nat {:trigger fs[k]} :: k < |es| ==>
            fs[k].prevTx == if k == c[0] + 1 then Tail(p) else es[k].prevTx
    ensures Chained(fs, p + c)
  {
    var m := p + c;
    forall i: nat | i < |m| ensures ChainLink(fs, m, i) {
      assert m[|p|] == c[0] && (i != |p| ==> m[i] != m[|p|]);
      if i < |p| {
        assert ChainLink(es, p, i);
      } else {
        assert ChainLink(es, c, i - |p|);
      }
    }
  }

  lemma {:induction false} MergeLinked(g: Graph, es: seq<TxEntry>, front: seq<seq<nat>>, p: seq<nat>, c: seq<nat>,
      back: seq<seq<nat>>)
    requires Linked(g, es, front + [p], c, back)
    ensures Tail(c) < |es| && Tail(p) < |es| && es[Tail(c)].firstTx < |es|
    ensures es[Tail(p)].prevGroup == EndOf(front, SENTINEL)
    ensures Linked(g, MergeEntries(es, Tail(c), Tail(p)), front, p + c, back)
  {
    hide GroupAt, ListAt, Distinct, Elems;
    ListSnoc(g, es, front, p, SENTINEL);
    FlattenSnoc(front, p);
    var f, b := Flatten(front), Flatten(back);
    assert Flatten(front + [p]) + c + b == f + (p + c) + b;
    DistinctSplit(f + (p + c), b);
    DistinctSplit(f, p + c);
    MergeEntriesGroup(g, es, p, c, EndOf(front, SENTINEL));
    var fs := MergeEntries(es, Tail(c), Tail(p));
    GroupSummary(g, es, p, EndOf(front, SENTINEL));
    GroupSummary(g, fs, p + c, EndOf(front, SENTINEL));
    UntouchedBy(es, fs, f, p, c, b);
    ListFrame(g, es, fs, front, SENTINEL);
    GroupSummary(g, es, c, Tail(p));
    TailConcat(p, c);
    ListFrame(g, es, fs, back, Tail(c));
  }

  lemma {:induction false} TailConcat(p: seq<nat>, c: seq<nat>)
    requires c != []
    ensures Tail(p + c) == Tail(c)
  {
  }

  lemma {:induction false} GroupSummary(g: Graph, es: seq<TxEntry>, seg: seq<nat>, prev: nat)
    requires GroupAt(g, es, seg, prev)
    ensures seg != [] && 0 < Tail(seg) < |es| && es[Tail(seg)].prevGroup == prev
    ensures es[Tail(seg)].feerate == SeqRate(g, seg)
    ensures es[Tail(seg)].group == Elems(seg) && es[Tail(seg)].deps == DepsOf(g, seg)
  {
  }

  lemma {:induction false} UntouchedBy(es: seq<TxEntry>, fs: seq<TxEntry>, f: seq<nat>, p: seq<nat>, c: seq<nat>,
      b: seq<nat>)
    requires |es| == |fs| && Distinct(f + (p + c) + b)
    requires forall x: nat :: x !in c && x + 1 < |es| ==> fs[x + 1] == es[x + 1]
    ensures SameOn(es, fs, Elems(f)) && SameOn(es, fs, Elems(b))
  {
    DistinctSplit(f + (p + c), b);
    DistinctSplit(f, p + c);
    ElemsConcat(p, c);
    ElemsConcat(f, p + c);
    assert forall x :: x in c ==> x in Elems(c);
  }

  // ---- Swapping ----

  /** The entry updates of a swap: [preprev, prev, cur, next] becomes [preprev, cur, prev, next]. */
  function SwapEntries(es: seq<TxEntry>, next: nat, cur: nat, prev: nat): (fs: seq<TxEntry>)
    requires next < |es| && cur < |es| && prev < |es|
    ensures |fs| == |es|
  {
    var preprev := es[prev].prevGroup;
    var fs := es[next := es[next].(prevGroup := prev)];
    var gs := fs[prev := fs[prev].(prevGroup := cur)];
    gs[cur := gs[cur].(prevGroup := preprev)]
  }

  /** What a swap changes: back pointers only. */
  lemma {:induction false} SwapFields(es: seq<TxEntry>, next: nat, cur: nat, prev: nat)
    requires next < |es| && cur < |es| && prev < |es| && next != cur && next != prev && cur != prev
    ensures var fs := SwapEntries(es, next, cur, prev);
            && (forall k: nat {:trigger fs[k]} :: k < |es| ==> fs[k] == es[k].(prevGroup := fs[k].prevGroup))
            && (forall k: nat {:trigger fs[k]} :: k < |es| && k != next && k != cur && k != prev ==> fs[k] == es[k])
            && fs[next].prevGroup == prev && fs[prev].prevGroup == cur && fs[cur].prevGroup == es[prev].prevGroup
  {
  }

  /** The three tails a swap touches are different. */
  lemma {:induction false} SwapDifferent(p: seq<nat>, c: seq<nat>, back: seq<seq<nat>>, next: nat)
    requires p != [] && c != [] && next == if back == [] then SENTINEL else Tail(back[0])
    requires Elems(p) !! Elems(c) && Elems(p) !! Elems(Flatten(back)) && Elems(c) !! Elems(Flatten(back))
    ensures next != Tail(c) && next != Tail(p) && Tail(c) != Tail(p) && Tail(c) != SENTINEL && Tail(p) != SENTINEL
  {
    hide Elems;
    TailIn(p);
    TailIn(c);
    NextIn(back, next);
  }

  /** Only the back pointer of a group's tail changed. */
  lemma {:induction false} GroupRelinked(g: Graph, es: seq<TxEntry>, fs: seq<TxEntry>, seg: seq<nat>, prev: nat,
      newPrev: nat)
    requires GroupAt(g, es, seg, prev) && |es| == |fs|
    requires forall x :: x in seg && x + 1 < |es| ==> fs[x + 1] == es[x + 1].(prevGroup := fs[x + 1].prevGroup)
    requires Tail(seg) < |fs| ==> fs[Tail(seg)].prevGroup == newPrev
    ensures GroupAt(g, fs, seg, newPrev)
  {
    forall i: nat | i < |seg| ensures ChainLink(fs, seg, i) {
      assert ChainLink(es, seg, i) && seg[i] in seg;
    }
    assert ChainLink(es, seg, |seg| - 1) && seg[|seg| - 1] in seg;
  }

  lemma {:induction false} SwapLinked(g: Graph, es: seq<TxEntry>, front: seq<seq<nat>>, p: seq<nat>, c: seq<nat>,
      back: seq<seq<nat>>, next: nat)
    requires Linked(g, es, front + [p], c, back) && next == if back == [] then SENTINEL else Tail(back[0])
    ensures next < |es| && Tail(c) < |es| && Tail(p) < |es|
    ensures es[Tail(p)].prevGroup == EndOf(front, SENTINEL)
    ensures Linked(g, SwapEntries(es, next, Tail(c), Tail(p)), front, c, [p] + back)
  {
    hide GroupAt, ListAt, Distinct, Elems, SwapEntries;
    var f, b := Flatten(front), Flatten(back);
    var start := EndOf(front, SENTINEL);
    ListSnoc(g, es, front, p, SENTINEL);
    FlattenSnoc(front, p);
    GroupSummary(g, es, p, start);
    GroupSummary(g, es, c, Tail(p));
    SwapNextInRange(g, es, back, c, next);
    var fs := SwapEntries(es, next, Tail(c), Tail(p));
    SwapDistinct(f, p, c, b);
    SwapTails(f, p, c, b);
    SwapDifferent(p, c, back, next);
    SwapFields(es, next, Tail(c), Tail(p));
    SwapFront(es, fs, f, p, c, b, next, back);
    ListFrame(g, es, fs, front, SENTINEL);
    SwapGroups(g, es, fs, p, c, start);
    if back == [] {
      EmptyList(g, fs, Tail(p));
    } else {
      DistinctSplit(f + p + c, b);
      SwapBack(g, es, fs, p, c, back, next);
      GroupNotSentinel(g, es, back, c);
    }
    assert ([p] + back)[1..] == back && ([p] + back)[0] == p;
    SwapListAt(g, fs, p, c, back);
    FlattenCons(p, back);
    assert f + c + (p + b) == (f + c) + p + b;
    SwapEnd(p, c, back);
  }

  lemma {:induction false} EmptyList(g: Graph, fs: seq<TxEntry>, start: nat)
    ensures ListAt(g, fs, [], start)
  {
  }

  lemma {:induction false} GroupNotSentinel(g: Graph, es: seq<TxEntry>, back: seq<seq<nat>>, c: seq<nat>)
    requires back != [] && ListAt(g, es, back, Tail(c))
    ensures Tail(back[0]) != SENTINEL
  {
  }

  lemma {:induction false} FlattenCons(p: seq<nat>, back: seq<seq<nat>>)
    ensures Flatten([p] + back) == p + Flatten(back)
  {
    assert ([p] + back)[1..] == back;
  }

  lemma {:induction false} SwapListAt(g: Graph, fs: seq<TxEntry>, p: seq<nat>, c: seq<nat>, back: seq<seq<nat>>)
    requires GroupAt(g, fs, p, Tail(c)) && ListAt(g, fs, back, Tail(p))
    ensures ListAt(g, fs, [p] + back, Tail(c))
  {
    hide GroupAt;
    assert ([p] + back)[1..] == back;
  }

  lemma {:induction false} SwapEnd(p: seq<nat>, c: seq<nat>, back: seq<seq<nat>>)
    ensures EndOf([p] + back, Tail(c)) == if back == [] then Tail(p) else EndOf(back, Tail(c))
  {
  }

  lemma {:induction false} SwapNextInRange(g: Graph, es: seq<TxEntry>, back: seq<seq<nat>>, c: seq<nat>, next: nat)
    requires es != [] && ListAt(g, es, back, Tail(c)) && next == if back == [] then SENTINEL else Tail(back[0])
    ensures next < |es|
  {
  }

  lemma {:induction false} SwapDistinct(f: seq<nat>, p: seq<nat>, c: seq<nat>, b: seq<nat>)
    requires Distinct((f + p) + c + b)
    ensures Distinct((f + c) + p + b)
  {
    hide Distinct, Elems;
    DistinctSplit(f + p + c, b);
    ExchangeElems(f, p, c);
    DistinctConcat((f + c) + p, b);
  }

  /** Distinct transactions have distinct indices. */
  lemma {:induction false} SwapTails(f: seq<nat>, p: seq<nat>, c: seq<nat>, b: seq<nat>)
    requires Distinct((f + p) + c + b)
    ensures Elems(f) !! Elems(p) && Elems(f) !! Elems(c) && Elems(f) !! Elems(b)
    ensures Elems(p) !! Elems(c) && Elems(p) !! Elems(b) && Elems(c) !! Elems(b)
  {
    hide Distinct, Elems;
    DistinctSplit(f + p + c, b);
    DistinctSplit(f + p, c);
    DistinctSplit(f, p);
    ElemsConcat(f, p);
    ElemsConcat(f + p, c);
  }

  lemma {:induction false} TailIn(seg: seq<nat>)
    requires seg != []
    ensures Tail(seg) > 0 && Tail(seg) - 1 in Elems(seg)
  {
    assert seg[|seg| - 1] in seg;
  }

  lemma {:induction false} NextIn(back: seq<seq<nat>>, next: nat)
    requires next == if back == [] then SENTINEL else Tail(back[0])
    ensures next == 0 || (back != [] && back[0] != [] && next - 1 in Elems(back[0]) && next - 1 in Elems(Flatten(back)))
  {
    if next != 0 {
      TailIn(back[0]);
      ElemsConcat(back[0], Flatten(back[1..]));
    }
  }

  lemma {:induction false} SwapFront(es: seq<TxEntry>, fs: seq<TxEntry>, f: seq<nat>, p: seq<nat>, c: seq<nat>,
      b: seq<nat>, next: nat, back: seq<seq<nat>>)
    requires p != [] && c != [] && |fs| == |es|
    requires forall k: nat {:trigger fs[k]} :: k < |es| && k != next && k != Tail(c) && k != Tail(p) ==> fs[k] == es[k]
    requires Elems(f) !! Elems(p) && Elems(f) !! Elems(c) && Elems(f) !! Elems(b) && b == Flatten(back)
    requires next == if back == [] then SENTINEL else Tail(back[0])
    ensures SameOn(es, fs, Elems(f))
  {
    hide Elems;
    TailIn(p);
    TailIn(c);
    NextIn(back, next);
  }

  lemma {:induction false} SwapGroups(g: Graph, es: seq<TxEntry>, fs: seq<TxEntry>, p: seq<nat>, c: seq<nat>,
      start: nat)
    requires GroupAt(g, es, p, start) && GroupAt(g, es, c, Tail(p)) && |fs| == |es|
    requires forall k: nat {:trigger fs[k]} :: k < |es| ==> fs[k] == es[k].(prevGroup := fs[k].prevGroup)
    requires Tail(p) < |fs| ==> fs[Tail(p)].prevGroup == Tail(c)
    requires Tail(c) < |fs| ==> fs[Tail(c)].prevGroup == start
    ensures GroupAt(g, fs, c, start) && GroupAt(g, fs, p, Tail(c))
  {
    hide GroupAt;
    GroupRelinked(g, es, fs, c, Tail(p), start);
    GroupRelinked(g, es, fs, p, start, Tail(c));
  }

  lemma {:induction false} SwapBack(g: Graph, es: seq<TxEntry>, fs: seq<TxEntry>, p: seq<nat>, c: seq<nat>,
      back: seq<seq<nat>>, next: nat)
    requires p != [] && c != [] && |fs| == |es| && ListAt(g, es, back, Tail(c)) && back != []
    requires next == Tail(back[0]) && next < |es|
    requires forall k: nat {:trigger fs[k]} :: k < |es| ==> fs[k] == es[k].(prevGroup := fs[k].prevGroup)
    requires forall k: nat {:trigger fs[k]} :: k < |es| && k != next && k != Tail(c) && k != Tail(p) ==> fs[k] == es[k]
    requires fs[next].prevGroup == Tail(p)
    requires Elems(p) !! Elems(Flatten(back)) && Elems(c) !! Elems(Flatten(back)) && Distinct(Flatten(back))
    ensures ListAt(g, fs, back, Tail(p))
  {
    hide GroupAt, Elems, Distinct;
    var first, rest := back[0], Flatten(back[1..]);
    GroupSummary(g, es, first, Tail(c));
    GroupRelinked(g, es, fs, first, Tail(c), Tail(p));
    DistinctSplit(first, rest);
    ElemsConcat(first, rest);
    TailIn(p);
    TailIn(c);
    TailIn(first);
    assert SameOn(es, fs, Elems(rest));
    ListFrame(g, es, fs, back[1..], Tail(first));
  }

  // ---- The merge/swap cycle ----

  /** What the links at the current and the previous group hold. */
  lemma {:induction false} LinkedFields(g: Graph, es: seq<TxEntry>, front: seq<seq<nat>>, c: seq<nat>,
      back: seq<seq<nat>>)
    requires Linked(g, es, front, c, back)
    ensures c != [] && Tail(c) < |es| && EndOf(front, SENTINEL) < |es|
    ensures es[Tail(c)].prevGroup == EndOf(front, SENTINEL)
    ensures es[Tail(c)].feerate == SeqRate(g, c) && es[Tail(c)].deps == DepsOf(g, c)
    ensures front == [] ==> es[EndOf(front, SENTINEL)].feerate == EMPTY
    ensures front != [] ==>
              var p := front[|front| - 1];
              Tail(p) == EndOf(front, SENTINEL) && es[Tail(p)].feerate == SeqRate(g, p) && es[Tail(p)].group == Elems(p)
  {
    hide GroupAt, ListAt, Distinct, Elems, SeqRate;
    GroupSummary(g, es, c, EndOf(front, SENTINEL));
    if front != [] {
      var n := |front| - 1;
      assert front == front[..n] + [front[n]];
      ListSnoc(g, es, front[..n], front[n], SENTINEL);
      GroupSummary(g, es, front[n], EndOf(front[..n], SENTINEL));
    }
  }

  /** If the cycle goes on there is a group to merge with or swap past, and the insertion goes on
      accordingly. */
  lemma {:induction false} CycleStep(g: Graph, es: seq<TxEntry>, front: seq<seq<nat>>, c: seq<nat>, back: seq<seq<nat>>)
    requires Linked(g, es, front, c, back) && Tail(c) < |es| && EndOf(front, SENTINEL) < |es|
    requires Higher(es[Tail(c)].feerate, es[EndOf(front, SENTINEL)].feerate)
    ensures front != []
    ensures var n := |front| - 1; var p := front[n];
            && front == front[..n] + [p] && Tail(p) == EndOf(front, SENTINEL)
            && (es[Tail(c)].deps * es[Tail(p)].group != {} ==> Insert(g, front, c) == Insert(g, front[..n], p + c))
            && (es[Tail(c)].deps * es[Tail(p)].group == {} ==> Insert(g, front, c) == Insert(g, front[..n], c) + [p])
  {
    hide Linked, Depends, DepsOf, Elems, SeqRate;
    LinkedFields(g, es, front, c, back);
    assert front != [];
    DepsOverlap(g, c, front[|front| - 1]);
  }

  lemma {:induction false} CycleEnd(g: Graph, es: seq<TxEntry>, front: seq<seq<nat>>, c: seq<nat>, back: seq<seq<nat>>)
    requires Linked(g, es, front, c, back) && Tail(c) < |es| && EndOf(front, SENTINEL) < |es|
    requires !Higher(es[Tail(c)].feerate, es[EndOf(front, SENTINEL)].feerate)
    ensures Insert(g, front, c) == front + [c]
  {
    hide Linked, Depends, SeqRate;
    LinkedFields(g, es, front, c, back);
    if front == [] { assert front + [c] == [c]; }
  }

  lemma {:induction false} MirrorEntry(g: Graph, rev: bool, pg: Graph, idx: nat)
    requires pg == if rev then Mirror(g) else g
    ensures Anc(pg, idx) == if rev then Desc(g, idx) else Anc(g, idx)
    ensures FeeRate(pg, idx) == if rev then FeeFrac(-FeeRate(g, idx).fee, FeeRate(g, idx).size) else FeeRate(g, idx)
  {
  }

  /** Append transaction `idx` as a group of its own and run its merge/swap cycle. In even passes
      the meaning of parent and child, and of high and low feerate, are swapped. */
  method InsertTransaction(g: Graph, rev: bool, before: seq<TxEntry>, idx: nat, ghost pg: Graph,
      ghost groups: seq<seq<nat>>)
    returns (es: seq<TxEntry>)
    requires pg == (if rev then Mirror(g) else g) && Stored(pg, before, groups) && before != []
    requires idx !in Elems(Flatten(groups)) && idx + 1 < |before|
    ensures |es| == |before| && Stored(pg, es, Insert(pg, groups, [idx]))
  {
    hide Stored, Linked, Insert, Elems, SwapEntries, MergeEntries, Depends, SeqRate, Anc, Desc, FeeRate, Mirror;
    var cur := idx + 1;
    var feerate := FeeRate(g, idx);
    if rev { feerate := FeeFrac(-feerate.fee, feerate.size); }
    var deps := if rev then Desc(g, idx) else Anc(g, idx);
    es := before[cur := TxEntry(NO_PREV_TX, cur, before[SENTINEL].prevGroup, {idx}, deps, feerate)];
    es := es[SENTINEL := es[SENTINEL].(prevGroup := cur)];
    MirrorEntry(g, rev, pg, idx);
    AppendLinked(pg, before, es, groups, idx);
    ghost var front, c, back: seq<seq<nat>> := groups, [idx], [];
    var next := SENTINEL;
    var prev := es[cur].prevGroup;
    LinkedFields(pg, es, front, c, back);
    assert Insert(pg, front, c) + back == Insert(pg, groups, [idx]);
    while Higher(es[cur].feerate, es[prev].feerate)
      invariant |es| == |before| && cur < |es| && prev < |es| && Linked(pg, es, front, c, back)
      invariant cur == Tail(c) && prev == EndOf(front, SENTINEL)
      invariant next == if back == [] then SENTINEL else Tail(back[0])
      invariant Insert(pg, front, c) + back == Insert(pg, groups, [idx])
      decreases |front|
    {
      CycleStep(pg, es, front, c, back);
      ghost var n := |front| - 1;
      ghost var p := front[n];
      LinkedFields(pg, es, front, c, back);
      if es[cur].deps * es[prev].group != {} {
        MergeLinked(pg, es, front[..n], p, c, back);
        var preprev := es[prev].prevGroup;
        es := MergeEntries(es, cur, prev);
        prev := preprev;
        TailConcat(p, c);
        c := p + c;
      } else {
        SwapLinked(pg, es, front[..n], p, c, back, next);
        var preprev := es[prev].prevGroup;
        es := SwapEntries(es, next, cur, prev);
        next := prev;
        prev := preprev;
        assert Insert(pg, front[..n], c) + [p] + back == Insert(pg, front[..n], c) + ([p] + back);
        back := [p] + back;
      }
      front := front[..n];
      LinkedFields(pg, es, front, c, back);
    }
    CycleEnd(pg, es, front, c, back);
    LinkedStored(pg, es, front, c, back);
    assert front + [c] + back == Insert(pg, groups, [idx]);
  }

  // ---- Writing the groups back ----

  lemma {:induction false} StoredLast(g: Graph, es: seq<TxEntry>, groups: seq<seq<nat>>)
    requires ListAt(g, es, groups, SENTINEL) && groups != []
    ensures var n := |groups| - 1; var seg := groups[n];
            && ListAt(g, es, groups[..n], SENTINEL) && Chained(es, seg) && seg != []
                && Tail(seg) == EndOf(groups, SENTINEL)
            && 0 < Tail(seg) < |es| && es[Tail(seg)].prevGroup == EndOf(groups[..n], SENTINEL)
            && Flatten(groups) == Flatten(groups[..n]) + seg
  {
    hide ListAt;
    var n := |groups| - 1;
    assert groups == groups[..n] + [groups[n]];
    ListSnoc(g, es, groups[..n], groups[n], SENTINEL);
    FlattenSnoc(groups[..n], groups[n]);
    GroupSummary(g, es, groups[n], EndOf(groups[..n], SENTINEL));
  }

  /** One element written before the later ones of its group. */
  method WriteBefore(lin: array<nat>, at: nat, x: nat, ghost seg: seq<nat>, ghost k: nat, ghost written: seq<nat>)
    requires at < lin.Length && k < |seg| && x == seg[k] && lin[at + 1..] == seg[k + 1..] + written
    modifies lin
    ensures lin[at..] == seg[k..] + written
  {
    ghost var was := lin[at + 1..];
    lin[at] := x;
    assert lin[at..] == [x] + was;
    assert seg[k..] + written == [x] + (seg[k + 1..] + written);
  }

  lemma {:induction false} LinkAt(es: seq<TxEntry>, seg: seq<nat>, i: nat)
    requires Chained(es, seg) && i < |seg|
    ensures ChainLink(es, seg, i)
  {
  }

  /** Write one group, from back to front, before what has been written at the end. */
  method WriteGroupForward(lin: array<nat>, es: seq<TxEntry>, tail: nat, done: nat, ghost seg: seq<nat>,
      ghost written: seq<nat>)
    returns (done': nat)
    requires seg != [] && Chained(es, seg) && tail == Tail(seg) && done + |seg| <= lin.Length
    requires lin[lin.Length - done..] == written
    modifies lin
    ensures done' == done + |seg| && lin[lin.Length - done'..] == seg + written
  {
    hide Chained;
    var curTx := tail;
    var at := lin.Length - done;
    ghost var k := |seg|;
    assert seg[k..] + written == written;
    while curTx != NO_PREV_TX
      invariant 0 <= k <= |seg| && at == lin.Length - done - |seg| + k
      invariant curTx == if k == 0 then NO_PREV_TX else seg[k - 1] + 1
      invariant lin[at..] == seg[k..] + written
      decreases k
    {
      LinkAt(es, seg, k - 1);
      k := k - 1;
      at := at - 1;
      WriteBefore(lin, at, curTx - 1, seg, k, written);
      curTx := es[curTx].prevTx;
    }
    done' := lin.Length - at;
    assert seg[0..] == seg;
  }

  /** Write one group, from back to front, after what has been written at the beginning. */
  method WriteGroupReversed(lin: array<nat>, es: seq<TxEntry>, tail: nat, done: nat, ghost seg: seq<nat>,
      ghost written: seq<nat>)
    returns (done': nat)
    requires seg != [] && Chained(es, seg) && tail == Tail(seg) && done + |seg| <= lin.Length
    requires lin[..done] == Reverse(written)
    modifies lin
    ensures done' == done + |seg| && lin[..done'] == Reverse(seg + written)
  {
    hide Reverse;
    var curTx := tail;
    ghost var k := |seg|;
    done' := done;
    assert seg[k..] + written == written;
    while curTx != NO_PREV_TX
      invariant 0 <= k <= |seg| && done' == done + (|seg| - k)
      invariant curTx == if k == 0 then NO_PREV_TX else seg[k - 1] + 1
      invariant lin[..done'] == Reverse(seg[k..] + written)
      decreases k
    {
      ghost var was := lin[..done'];
      ghost var x := seg[k - 1];
      assert ChainLink(es, seg, k - 1);
      lin[done'] := curTx - 1;
      done' := done' + 1;
      assert lin[..done'] == was + [x];
      ReverseCons(x, seg[k..] + written);
      assert seg[k - 1..] + written == [x] + (seg[k..] + written);
      curTx := es[curTx].prevTx;
      k := k - 1;
    }
    assert seg[0..] == seg;
  }

  lemma {:induction false} ReverseCons(x: nat, s: seq<nat>)
    ensures Reverse([x] + s) == Reverse(s) + [x]
  {
    assert ([x] + s)[1..] == s;
  }

  /** Convert the entries back to a linearization. */
  method WriteBack(lin: array<nat>, rev: bool, es: seq<TxEntry>, ghost pg: Graph, ghost groups: seq<seq<nat>>)
    requires Stored(pg, es, groups) && lin.Length == |Flatten(groups)|
    modifies lin
    ensures lin[..] == if rev then Reverse(Flatten(groups)) else Flatten(groups)
  {
    hide ListAt, Chained;
    var cur := es[SENTINEL].prevGroup;
    var done := 0;
    ghost var left := groups;
    ghost var written: seq<nat> := [];
    assert Flatten(left) + written == Flatten(groups);
    while cur != SENTINEL
      invariant ListAt(pg, es, left, SENTINEL) && cur == EndOf(left, SENTINEL) && (left == [] ==> cur == SENTINEL)
      invariant Flatten(left) + written == Flatten(groups) && |written| == done <= lin.Length
      invariant if rev then lin[..done] == Reverse(written) else lin[lin.Length - done..] == written
      decreases |left|
    {
      StoredLast(pg, es, left);
      ghost var n := |left| - 1;
      assert Flatten(left[..n]) + (left[n] + written) == Flatten(groups);
      assert |left[n]| + done <= lin.Length;
      if rev {
        done := WriteGroupReversed(lin, es, cur, done, left[n], written);
      } else {
        done := WriteGroupForward(lin, es, cur, done, left[n], written);
      }
      written := left[n] + written;
      left := left[..n];
      cur := es[cur].prevGroup;
    }
    WriteBackDone(pg, es, left, written, groups);
    assert lin[..] == lin[..lin.Length] && lin[..] == lin[0..];
  }

  lemma {:induction false} WriteBackDone(g: Graph, es: seq<TxEntry>, left: seq<seq<nat>>, written: seq<nat>,
      groups: seq<seq<nat>>)
    requires ListAt(g, es, left, SENTINEL) && EndOf(left, SENTINEL) == SENTINEL
    requires Flatten(left) + written == Flatten(groups)
    ensures left == [] && written == Flatten(groups)
  {
    if left != [] {
      StoredLast(g, es, left);
      assert false;
    }
    assert Flatten(left) + written == written;
  }

  // ---- The passes ----

  /** One pass over the linearization, in place. */
  method RunPass(g: Graph, lin: array<nat>, rev: bool, entries: seq<TxEntry>) returns (es: seq<TxEntry>)
    requires Distinct(lin[..]) && Elems(lin[..]) <= g.used && WellFormed(g) && PositiveSizes(g)
    requires |entries| == |g.entries| + 1 && entries[SENTINEL].feerate == EMPTY
    modifies lin
    ensures |es| == |g.entries| + 1 && es[SENTINEL].feerate == EMPTY
    ensures lin[..] == if rev then Backward(g, old(lin[..])) else Forward(g, old(lin[..]))
  {
    hide Stored, Insert, InsertAll, WellFormed, Elems, Distinct, Anc, Desc, PositiveSizes, FeeRate;
    ghost var pg := if rev then Mirror(g) else g;
    ghost var start := lin[..];
    ghost var input := if rev then Reverse(start) else start;
    PassInput(g, rev, start, input);
    es := entries[SENTINEL := entries[SENTINEL].(prevGroup := SENTINEL)];
    ghost var groups: seq<seq<nat>> := [];
    NothingStored(pg, es);
    assert input[..0] == [];
    InsertAllNone(pg, []);
    for i := 0 to lin.Length
      invariant |es| == |g.entries| + 1 && lin[..] == start && Stored(pg, es, groups) && groups == Pass(pg, input[..i])
      invariant Elems(Flatten(groups)) == Elems(input[..i])
    {
      var idx := lin[if rev then lin.Length - 1 - i else i];
      InputAt(g, rev, start, input, i);
      InputNew(g, input, i);
      StoredSentinel(pg, es, groups);
      es := InsertTransaction(g, rev, es, idx, pg, groups);
      StoredSentinel(pg, es, Insert(pg, groups, [idx]));
      PassStep(pg, input, i, groups);
      groups := Insert(pg, groups, [idx]);
    }
    assert input[..|input|] == input;
    StoredSentinel(pg, es, groups);
    PassLength(pg, groups, input);
    WriteBack(lin, rev, es, pg, groups);
  }

  lemma {:induction false} PassInput(g: Graph, rev: bool, start: seq<nat>, input: seq<nat>)
    requires Distinct(start) && Elems(start) <= g.used && input == if rev then Reverse(start) else start
    ensures |input| == |start| && Distinct(input) && Elems(input) <= g.used
  {
    ReverseElems(start);
  }

  lemma {:induction false} NothingStored(g: Graph, es: seq<TxEntry>)
    requires es != [] && es[SENTINEL].feerate == EMPTY && es[SENTINEL].prevGroup == SENTINEL
    ensures Stored(g, es, []) && Elems(Flatten([])) == Elems([])
  {
  }

  lemma {:induction false} InsertAllNone(g: Graph, groups: seq<seq<nat>>)
    ensures InsertAll(g, groups, []) == groups
  {
  }

  lemma {:induction false} InputAt(g: Graph, rev: bool, start: seq<nat>, input: seq<nat>, i: nat)
    requires input == (if rev then Reverse(start) else start) && i < |start| == |input|
    ensures input[i] == start[if rev then |start| - 1 - i else i]
  {
    if rev { ReverseAt(start, i); }
  }

  lemma {:induction false} InputNew(g: Graph, input: seq<nat>, i: nat)
    requires Distinct(input) && Elems(input) <= g.used && i < |input| && WellFormed(g)
    ensures input[i] !in Elems(input[..i]) && input[i] < |g.entries|
  {
    assert input[i] in Elems(input);
  }

  lemma {:induction false} PassStep(g: Graph, input: seq<nat>, i: nat, groups: seq<seq<nat>>)
    requires i < |input| && Distinct(input) && groups == Pass(g, input[..i])
    requires Elems(Flatten(groups)) == Elems(input[..i])
    requires Distinct(Flatten(groups))
    ensures Insert(g, groups, [input[i]]) == Pass(g, input[..i + 1])
    ensures Elems(Flatten(Insert(g, groups, [input[i]]))) == Elems(input[..i + 1])
  {
    assert input[..i + 1] == input[..i] + [input[i]];
    InsertAllConcat(g, [], input[..i], [input[i]]);
    assert [input[i]][1..] == [];
    assert InsertAll(g, groups, [input[i]]) == InsertAll(g, Insert(g, groups, [input[i]]), []);
    assert input[i] !in Elems(input[..i]);
    DistinctConcat(Flatten(groups), [input[i]]);
    InsertElems(g, groups, [input[i]]);
    ElemsConcat(Flatten(groups), [input[i]]);
    ElemsConcat(input[..i], [input[i]]);
  }

  lemma {:induction false} StoredSentinel(g: Graph, es: seq<TxEntry>, groups: seq<seq<nat>>)
    requires Stored(g, es, groups)
    ensures es != [] && es[SENTINEL].feerate == EMPTY && Distinct(Flatten(groups))
  {
  }

  lemma {:induction false} PassLength(g: Graph, groups: seq<seq<nat>>, input: seq<nat>)
    requires Distinct(Flatten(groups)) && Distinct(input) && Elems(Flatten(groups)) == Elems(input)
    ensures |Flatten(groups)| == |input|
  {
    DistinctCard(Flatten(groups));
    DistinctCard(input);
  }

  /** Improve a linearization in place: a pass from back to front, then one from front to back. */
  method PostLinearize(g: Graph, linearization: array<nat>)
    requires Cluster(g) && Linearizes(g, linearization[..], g.used)
    modifies linearization
    ensures linearization[..] == PostLinearized(g, old(linearization[..]))
    ensures Linearizes(g, linearization[..], g.used) && AsGood(g, linearization[..], old(linearization[..]))
    ensures AllConnected(g, Chunks(g, linearization[..]))
    ensures DescendantsChain(g) || DescendantsChain(Mirror(g)) ==> Optimal(g, linearization[..], g.used)
  {
    hide WellFormed, PositiveSizes, Acyclic, AsGood, Optimal, DescendantsChain, AllConnected, Backward, Forward,
        Linearizes;
    ghost var start := linearization[..];
    PostLinearizeGuarantees(g, start, g.used);
    BackwardGuarantees(g, start, g.used);
    LinearizesShape(g, start);
    LinearizesShape(g, Backward(g, start));
    var entries := seq(|g.entries| + 1, _ => TxEntry(0, 0, 0, {}, {}, EMPTY));
    var pass := 0;
    while pass < 2
      invariant 0 <= pass <= 2 && |entries| == |g.entries| + 1 && entries[SENTINEL].feerate == EMPTY
      invariant linearization[..] == if pass == 0 then start
              else if pass == 1 then Backward(g, start) else PostLinearized(g, start)
    {
      entries := RunPass(g, linearization, pass % 2 == 0, entries);
      pass := pass + 1;
    }
  }
}
