/** Chunks of a linearization and their feerate diagrams
    (src/cluster_linearize.h ChunkLinearization, src/util/feefrac.h CompareChunks). */
module Chunking {
  import opened FeeFracs
  import opened Sums
  import opened DepGraphs

  function Flatten(segs: seq<seq<nat>>): seq<nat> {
    if segs == [] then [] else segs[0] + Flatten(segs[1..])
  }

  lemma {:induction false} FlattenConcat(a: seq<seq<nat>>, b: seq<seq<nat>>)
    ensures Flatten(a + b) == Flatten(a) + Flatten(b)
  {
    if a == [] {
      assert a + b == b;
    } else {
      assert (a + b)[1..] == a[1..] + b;
      FlattenConcat(a[1..], b);
    }
  }

  lemma {:induction false} FlattenSingle(s: seq<nat>)
    ensures Flatten([s]) == s
  {
    assert [s][1..] == [];
    assert Flatten([s]) == s + [];
  }

  lemma {:induction false} FlattenSnoc(a: seq<seq<nat>>, s: seq<nat>)
    ensures Flatten(a + [s]) == Flatten(a) + s
  {
    FlattenConcat(a, [s]);
    FlattenSingle(s);
  }

  lemma {:induction false} SegInFlatten(segs: seq<seq<nat>>, k: nat)
    requires k < |segs|
    ensures Elems(segs[k]) <= Elems(Flatten(segs))
  {
    ElemsConcat(segs[0], Flatten(segs[1..]));
    if k > 0 { SegInFlatten(segs[1..], k - 1); }
  }

  // ---- Chunks ----

  /** Every proper nonempty prefix has a strictly lower feerate than the whole. */
  ghost predicate Rising(g: Graph, seg: seq<nat>) {
    forall k {:trigger seg[..k]} :: 0 < k < |seg| ==> Lower(SeqRate(g, seg[..k]), SeqRate(g, seg))
  }

  /** `segs` is a chunking of what it concatenates to: nonempty rising segments whose feerates
      never increase. */
  ghost predicate Chunked(g: Graph, segs: seq<seq<nat>>) {
    && (forall i {:trigger segs[i]} :: 0 <= i < |segs| ==> segs[i] != [] && Rising(g, segs[i]))
    && forall i {:trigger segs[i + 1]} :: 0 <= i < |segs| - 1 ==> !Higher(SeqRate(g, segs[i + 1]), SeqRate(g, segs[i]))
  }

  /** Absorb the last chunks into `c` while they have lower feerate, then append it. */
  function Absorb(g: Graph, segs: seq<seq<nat>>, c: seq<nat>): seq<seq<nat>>
    decreases |segs|
  {
    var n := |segs|;
    if n > 0 && Higher(SeqRate(g, c), SeqRate(g, segs[n - 1])) then Absorb(g, segs[..n - 1], segs[n - 1] + c)
    else segs + [c]
  }

  function Chunks(g: Graph, lin: seq<nat>): seq<seq<nat>> {
    var n := |lin|;
    if n == 0 then [] else Absorb(g, Chunks(g, lin[..n - 1]), [lin[n - 1]])
  }

  lemma {:induction false} MedianRate(a: FeeFrac, b: FeeFrac, r: FeeFrac)
    requires r.fee == a.fee + b.fee && r.size == a.size + b.size && Higher(b, a)
    ensures Excess(r, a) < 0 && Excess(r, b) > 0
  {
    assert Excess(r, a) == a.fee * a.size + a.fee * b.size - a.fee * a.size - b.fee * a.size by {
      assert a.fee * r.size == a.fee * a.size + a.fee * b.size;
      assert r.fee * a.size == a.fee * a.size + b.fee * a.size;
    }
    assert Excess(r, b) == b.fee * a.size + b.fee * b.size - a.fee * b.size - b.fee * b.size by {
      assert b.fee * r.size == b.fee * a.size + b.fee * b.size;
      assert r.fee * b.size == a.fee * b.size + b.fee * b.size;
    }
  }

  /** Relative to its own slope a sequence has weight zero, so a prefix and the rest balance. */
  lemma {:induction false} Balance(g: Graph, p: seq<nat>, s: seq<nat>, l: FeeFrac)
    ensures Excess(l, SeqRate(g, p + s)) == Excess(l, SeqRate(g, p)) + Excess(l, SeqRate(g, s))
  {
    SeqRateConcat(g, p, s);
    ExcessPlus(l, SeqRate(g, p), SeqRate(g, s));
    assert SeqRate(g, p + s) == FeeFrac(SeqRate(g, p).fee + SeqRate(g, s).fee, SeqRate(g, p).size + SeqRate(g, s).size);
  }

  /** A lower-feerate rising segment followed by a higher-feerate one is rising. */
  lemma {:induction false} MergeRising(g: Graph, p: seq<nat>, c: seq<nat>)
    requires PositiveSizes(g) && Elems(p) <= g.used && Elems(c) <= g.used && p != [] && c != []
    requires Rising(g, p) && Rising(g, c) && Higher(SeqRate(g, c), SeqRate(g, p))
    ensures Rising(g, p + c)
  {
    var m := p + c;
    var r, rp, rc := SeqRate(g, m), SeqRate(g, p), SeqRate(g, c);
    SeqRateConcat(g, p, c);
    MedianRate(rp, rc, r);
    SeqSizePositive(g, p);
    SeqSizePositive(g, c);
    forall k | 0 < k < |m| ensures Lower(SeqRate(g, m[..k]), r) {
      MergeRisingAt(g, p, c, k);
    }
  }

  lemma {:induction false} MergeRisingAt(g: Graph, p: seq<nat>, c: seq<nat>, k: nat)
    requires PositiveSizes(g) && Elems(p) <= g.used && Elems(c) <= g.used && p != [] && c != []
    requires Rising(g, p) && Rising(g, c) && 0 < k < |p + c|
    requires var r := SeqRate(g, p + c); Excess(r, SeqRate(g, p)) < 0 && Excess(r, SeqRate(g, c)) > 0
    ensures Excess(SeqRate(g, p + c), SeqRate(g, (p + c)[..k])) < 0
  {
    var m := p + c;
    var r, rp, rc := SeqRate(g, m), SeqRate(g, p), SeqRate(g, c);
    SeqSizePositive(g, p);
    SeqSizePositive(g, c);
    SeqRateConcat(g, p, c);
    if k < |p| {
      assert m[..k] == p[..k] && Elems(p[..k]) <= Elems(p);
      SeqSizePositive(g, p[..k]);
      FlatterTrans(r, rp, SeqRate(g, p[..k]));
    } else if k == |p| {
      assert m[..k] == p;
    } else {
      var j := k - |p|;
      var s := c[j..];
      assert c == c[..j] + s && m == m[..k] + s && Elems(s) <= Elems(c);
      assert Lower(SeqRate(g, c[..j]), rc);
      Balance(g, c[..j], s, rc);
      SeqSizePositive(g, s);
      SteeperTrans(r, rc, SeqRate(g, s));
      Balance(g, m[..k], s, r);
    }
  }

  lemma {:induction false} AbsorbChunked(g: Graph, segs: seq<seq<nat>>, c: seq<nat>)
    requires PositiveSizes(g) && Elems(Flatten(segs)) <= g.used && Elems(c) <= g.used
    requires Chunked(g, segs) && c != [] && Rising(g, c)
    ensures Chunked(g, Absorb(g, segs, c)) && Flatten(Absorb(g, segs, c)) == Flatten(segs) + c
    decreases |segs|
  {
    var n := |segs|;
    if n > 0 && Higher(SeqRate(g, c), SeqRate(g, segs[n - 1])) {
      var front, last := segs[..n - 1], segs[n - 1];
      assert segs == front + [last];
      FlattenSnoc(front, last);
      ElemsConcat(Flatten(front), last);
      ElemsConcat(last, c);
      MergeRising(g, last, c);
      FrontChunked(g, segs);
      hide Chunked, Rising, Higher, SeqRate;
      AbsorbChunked(g, front, last + c);
      assert Flatten(front) + (last + c) == Flatten(segs) + c;
    } else {
      FlattenSnoc(segs, c);
      SnocChunked(g, segs, c);
    }
  }

  lemma {:induction false} FrontChunked(g: Graph, segs: seq<seq<nat>>)
    requires Chunked(g, segs) && segs != []
    ensures Chunked(g, segs[..|segs| - 1])
  {
    hide Rising, Higher, SeqRate;
  }

  lemma {:induction false} SnocChunked(g: Graph, segs: seq<seq<nat>>, c: seq<nat>)
    requires Chunked(g, segs) && c != [] && Rising(g, c)
    requires (segs != [] ==> !Higher(SeqRate(g, c), SeqRate(g, segs[|segs| - 1])))
    ensures Chunked(g, segs + [c])
  {
    hide Rising, Higher, SeqRate;
  }

  /** ChunkLinearization yields a chunking of its input. */
  lemma {:induction false} ChunksChunked(g: Graph, lin: seq<nat>)
    requires PositiveSizes(g) && Elems(lin) <= g.used
    ensures Chunked(g, Chunks(g, lin)) && Flatten(Chunks(g, lin)) == lin
  {
    var n := |lin|;
    if n > 0 {
      var front, x := lin[..n - 1], lin[n - 1];
      assert lin == front + [x];
      ElemsConcat(front, [x]);
      ChunksChunked(g, front);
      AbsorbChunked(g, Chunks(g, front), [x]);
    }
  }

  // ---- Chunks seen from a slope ----

  /** The heaviest prefix is the empty one or the whole. */
  ghost predicate Tight(w: Weight, seg: seq<nat>) {
    MaxPrefix(w, seg) == 0 || MaxPrefix(w, seg) == SeqSum(w, seg)
  }

  lemma {:induction false} RisingTight(g: Graph, seg: seq<nat>, l: FeeFrac)
    requires PositiveSizes(g) && Elems(seg) <= g.used && Rising(g, seg) && l.size > 0
    ensures Tight(Slope(g, l), seg)
  {
    var w := Slope(g, l);
    MaxPrefixIsMax(w, seg);
    var k :| 0 <= k <= |seg| && SeqSum(w, seg[..k]) == MaxPrefix(w, seg);
    if 0 < k < |seg| {
      var p, s, r := seg[..k], seg[k..], SeqRate(g, seg);
      assert seg == p + s && Elems(p) <= Elems(seg) && Elems(s) <= Elems(seg);
      SeqSizePositive(g, p);
      SeqSizePositive(g, s);
      SeqSizePositive(g, seg);
      SeqExcess(g, l, p);
      SeqExcess(g, l, seg);
      Balance(g, p, s, l);
      Balance(g, p, s, r);
      assert seg[..|seg|] == seg;
      if Excess(l, r) <= 0 {
        FlatterTrans(l, r, SeqRate(g, p));
      } else {
        SteeperTrans(l, r, SeqRate(g, s));
      }
    } else if k == |seg| {
      assert seg[..k] == seg;
    }
  }

  /** The total of the chunks heavier than nothing. */
  ghost function PositivePart(w: Weight, segs: seq<seq<nat>>): int {
    if segs == [] then 0
    else (if SeqSum(w, segs[0]) > 0 then SeqSum(w, segs[0]) else 0) + PositivePart(w, segs[1..])
  }

  lemma {:induction false} PositivePartBound(w: Weight, segs: seq<seq<nat>>)
    requires forall i :: 0 <= i < |segs| ==> SeqSum(w, segs[i]) <= 0
    ensures PositivePart(w, segs) == 0
  {
    if segs != [] { PositivePartBound(w, segs[1..]); }
  }

  /** For tight segments of which no heavy one follows a light one, the heaviest prefix collects
      exactly the heavy segments. */
  lemma {:induction false} HeaviestPrefix(w: Weight, segs: seq<seq<nat>>)
    requires forall i :: 0 <= i < |segs| ==> Tight(w, segs[i])
    requires forall i, j :: 0 <= i < j < |segs| && SeqSum(w, segs[j]) > 0 ==> SeqSum(w, segs[i]) > 0
    ensures MaxPrefix(w, Flatten(segs)) == PositivePart(w, segs)
  {
    if segs != [] {
      var rest := segs[1..];
      assert forall i :: 0 <= i < |rest| ==> rest[i] == segs[i + 1];
      HeaviestPrefix(w, rest);
      MaxPrefixConcat(w, segs[0], Flatten(rest));
      assert Tight(w, segs[0]);
      MaxPrefixAtLeastSum(w, segs[0]);
      if SeqSum(w, segs[0]) <= 0 {
        forall i | 0 <= i < |rest| ensures SeqSum(w, rest[i]) <= 0 { assert rest[i] == segs[i + 1]; }
        PositivePartBound(w, rest);
      }
    }
  }

  lemma {:induction false} MaxPrefixAtLeastSum(w: Weight, s: seq<nat>)
    ensures MaxPrefix(w, s) >= SeqSum(w, s)
  {
    MaxPrefixIsMax(w, s);
    assert s[..|s|] == s;
  }

  lemma {:induction false} NextNotHigher(g: Graph, segs: seq<seq<nat>>, i: nat)
    requires Chunked(g, segs) && i + 1 < |segs|
    ensures !Higher(SeqRate(g, segs[i + 1]), SeqRate(g, segs[i]))
  {
    hide Rising, Higher, SeqRate;
  }

  /** Chunk feerates never increase over any distance. */
  lemma {:induction false} ChunkedMonotone(g: Graph, segs: seq<seq<nat>>, i: nat, j: nat)
    requires PositiveSizes(g) && Chunked(g, segs) && Elems(Flatten(segs)) <= g.used && i <= j < |segs|
    ensures Excess(SeqRate(g, segs[i]), SeqRate(g, segs[j])) <= 0
    decreases j - i
  {
    if i < j {
      SegInFlatten(segs, i);
      SegInFlatten(segs, j);
      SegInFlatten(segs, j - 1);
      SeqSizePositive(g, segs[i]);
      SeqSizePositive(g, segs[j]);
      SeqSizePositive(g, segs[j - 1]);
      ChunkedMonotone(g, segs, i, j - 1);
      NextNotHigher(g, segs, j - 1);
      FlatterTrans(SeqRate(g, segs[i]), SeqRate(g, segs[j - 1]), SeqRate(g, segs[j]));
    }
  }

  lemma {:induction false} ChunkHeavier(g: Graph, segs: seq<seq<nat>>, i: nat, j: nat, l: FeeFrac)
    requires PositiveSizes(g) && Chunked(g, segs) && Elems(Flatten(segs)) <= g.used && i <= j < |segs| && l.size > 0
    requires SeqSum(Slope(g, l), segs[j]) > 0
    ensures SeqSum(Slope(g, l), segs[i]) > 0
  {
    SegInFlatten(segs, i);
    SegInFlatten(segs, j);
    SeqSizePositive(g, segs[i]);
    SeqSizePositive(g, segs[j]);
    SeqExcess(g, l, segs[i]);
    SeqExcess(g, l, segs[j]);
    ChunkedMonotone(g, segs, i, j);
    if Excess(l, SeqRate(g, segs[i])) <= 0 {
      FlatterTrans(l, SeqRate(g, segs[i]), SeqRate(g, segs[j]));
    }
  }

  /** The chunking is the upper concave envelope of the prefix sums: for every slope, the heaviest
      prefix of the linearization is made of the chunks steeper than the slope. */
  lemma {:induction false} ChunksEnvelope(g: Graph, segs: seq<seq<nat>>, l: FeeFrac)
    requires PositiveSizes(g) && Chunked(g, segs) && Elems(Flatten(segs)) <= g.used && l.size > 0
    ensures MaxPrefix(Slope(g, l), Flatten(segs)) == PositivePart(Slope(g, l), segs)
  {
    var w := Slope(g, l);
    forall i | 0 <= i < |segs| ensures Tight(w, segs[i]) {
      SegInFlatten(segs, i);
      RisingTight(g, segs[i], l);
    }
    forall i, j | 0 <= i < j < |segs| && SeqSum(w, segs[j]) > 0 ensures SeqSum(w, segs[i]) > 0 {
      ChunkHeavier(g, segs, i, j, l);
    }
    HeaviestPrefix(w, segs);
  }

  // ---- There is only one chunking ----

  /** No prefix of a linearization has a higher feerate than its first chunk. */
  lemma {:induction false} FirstChunkBest(g: Graph, segs: seq<seq<nat>>, k: nat)
    requires PositiveSizes(g) && Chunked(g, segs) && Elems(Flatten(segs)) <= g.used
    requires segs != [] && k <= |Flatten(segs)|
    ensures !Higher(SeqRate(g, Flatten(segs)[..k]), SeqRate(g, segs[0]))
  {
    var l := SeqRate(g, segs[0]);
    var w := Slope(g, l);
    SegInFlatten(segs, 0);
    SeqSizePositive(g, segs[0]);
    forall i | 0 <= i < |segs| ensures SeqSum(w, segs[i]) <= 0 {
      ChunkedMonotone(g, segs, 0, i);
      SeqExcess(g, l, segs[i]);
    }
    PositivePartBound(w, segs);
    ChunksEnvelope(g, segs, l);
    MaxPrefixIsMax(w, Flatten(segs));
    SeqExcess(g, l, Flatten(segs)[..k]);
  }

  lemma {:induction false} FirstChunkNotShorter(g: Graph, a: seq<seq<nat>>, b: seq<seq<nat>>)
    requires PositiveSizes(g) && Chunked(g, a) && Chunked(g, b) && Elems(Flatten(a)) <= g.used
    requires Flatten(a) == Flatten(b) && a != [] && b != []
    ensures |a[0]| >= |b[0]|
  {
    if |a[0]| < |b[0]| {
      var lin := Flatten(a);
      assert lin[..|b[0]|] == b[0] && b[0][..|a[0]|] == a[0];
      assert Lower(SeqRate(g, b[0][..|a[0]|]), SeqRate(g, b[0]));
      FirstChunkBest(g, a, |b[0]|);
      assert false;
    }
  }

  lemma {:induction false} ChunkingUnique(g: Graph, a: seq<seq<nat>>, b: seq<seq<nat>>)
    requires PositiveSizes(g) && Chunked(g, a) && Chunked(g, b) && Elems(Flatten(a)) <= g.used
    requires Flatten(a) == Flatten(b)
    ensures a == b
    decreases |a|
  {
    assert a != [] ==> a[0] != [];
    assert b != [] ==> b[0] != [];
    if a != [] && b != [] {
      FirstChunkNotShorter(g, a, b);
      FirstChunkNotShorter(g, b, a);
      var lin := Flatten(a);
      assert lin[..|a[0]|] == a[0] && lin[..|b[0]|] == b[0];
      assert lin[|a[0]|..] == Flatten(a[1..]) && lin[|b[0]|..] == Flatten(b[1..]);
      ElemsConcat(a[0], Flatten(a[1..]));
      ChunkedTail(g, a);
      ChunkedTail(g, b);
      ChunkingUnique(g, a[1..], b[1..]);
      assert a == [a[0]] + a[1..] && b == [b[0]] + b[1..];
    }
  }

  lemma {:induction false} ChunkedTail(g: Graph, a: seq<seq<nat>>)
    requires Chunked(g, a) && a != []
    ensures Chunked(g, a[1..])
  {
    var t := a[1..];
    forall i | 0 <= i < |t| - 1 ensures !Higher(SeqRate(g, t[i + 1]), SeqRate(g, t[i])) {
      var j := i + 1;
      assert t[i + 1] == a[j + 1] && t[i] == a[j];
      assert !Higher(SeqRate(g, a[j + 1]), SeqRate(g, a[j]));
    }
  }
}
