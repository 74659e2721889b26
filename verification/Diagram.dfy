/** Feerate diagrams, and what it means for one linearization to be as good as another. */
module Diagrams {
  import opened FeeFracs
  import opened Sums
  import opened DepGraphs
  import opened Chunking

  /** `a` is at least as good as `b`: for every slope, some prefix of `a` lies at least as far
      above the line of that slope as every prefix of `b`. `DiagramDominance` below shows that
      this says that the feerate diagram of `a` is nowhere below that of `b`. */
  ghost predicate AsGood(g: Graph, a: seq<nat>, b: seq<nat>) {
    forall l: FeeFrac {:trigger Slope(g, l)} :: l.size > 0 ==> MaxPrefix(Slope(g, l), a) >= MaxPrefix(Slope(g, l), b)
  }

  lemma {:induction false} AsGoodRefl(g: Graph, a: seq<nat>)
    ensures AsGood(g, a, a)
  {
  }

  lemma {:induction false} AsGoodTrans(g: Graph, a: seq<nat>, b: seq<nat>, c: seq<nat>)
    requires AsGood(g, a, b) && AsGood(g, b, c)
    ensures AsGood(g, a, c)
  {
  }

  /** Improving what follows a fixed beginning improves the whole. */
  lemma {:induction false} AsGoodAfter(g: Graph, p: seq<nat>, a: seq<nat>, b: seq<nat>)
    requires AsGood(g, a, b)
    ensures AsGood(g, p + a, p + b)
  {
    forall l: FeeFrac | l.size > 0 ensures MaxPrefix(Slope(g, l), p + a) >= MaxPrefix(Slope(g, l), p + b) {
      MaxPrefixConcat(Slope(g, l), p, a);
      MaxPrefixConcat(Slope(g, l), p, b);
    }
  }

  /** No topologically valid subset of `todo` beats a prefix of `lin`, at any slope. */
  ghost predicate Optimal(g: Graph, lin: seq<nat>, todo: set<nat>) {
    forall l: FeeFrac, s {:trigger SetSum(Slope(g, l), s)} ::
      l.size > 0 && Closed(g, s, todo) ==> SetSum(Slope(g, l), s) <= MaxPrefix(Slope(g, l), lin)
  }

  /** An optimal linearization is as good as every topologically valid one. */
  lemma {:induction false} OptimalIsBest(g: Graph, lin: seq<nat>, other: seq<nat>, todo: set<nat>)
    requires Optimal(g, lin, todo) && Linearizes(g, other, todo)
    ensures AsGood(g, lin, other)
  {
    forall l: FeeFrac | l.size > 0 ensures MaxPrefix(Slope(g, l), lin) >= MaxPrefix(Slope(g, l), other) {
      var w := Slope(g, l);
      MaxPrefixIsMax(w, other);
      var k :| 0 <= k <= |other| && SeqSum(w, other[..k]) == MaxPrefix(w, other);
      PrefixClosed(g, other, todo, k);
      SeqSumElems(w, other[..k]);
    }
  }

  /** Being as good as an optimal linearization is being optimal. */
  lemma {:induction false} AsGoodAsOptimal(g: Graph, lin: seq<nat>, other: seq<nat>, todo: set<nat>)
    requires Optimal(g, other, todo) && AsGood(g, lin, other)
    ensures Optimal(g, lin, todo)
  {
    forall l: FeeFrac, s | l.size > 0 && Closed(g, s, todo)
      ensures SetSum(Slope(g, l), s) <= MaxPrefix(Slope(g, l), lin)
    {
      assert SetSum(Slope(g, l), s) <= MaxPrefix(Slope(g, l), other);
    }
  }

  // ---- The diagram itself ----

  ghost predicate Positive(chunks: seq<FeeFrac>) {
    forall i {:trigger chunks[i]} :: 0 <= i < |chunks| ==> chunks[i].size > 0
  }

  ghost predicate Descending(chunks: seq<FeeFrac>) {
    forall i, j {:trigger chunks[i], chunks[j]} :: 0 <= i <= j < |chunks| ==> Excess(chunks[i], chunks[j]) <= 0
  }

  /** Cumulative fee at cumulative size `x`: straight lines between the ends of the chunks,
      starting at the origin, and horizontal after the last one. */
  ghost function DiagramAt(chunks: seq<FeeFrac>, x: real): real
    requires Positive(chunks)
  {
    if chunks == [] then 0.0
    else if x <= chunks[0].size as real then chunks[0].fee as real * (x / chunks[0].size as real)
    else chunks[0].fee as real + DiagramAt(chunks[1..], x - chunks[0].size as real)
  }

  function TotalSize(chunks: seq<FeeFrac>): int {
    if chunks == [] then 0 else chunks[0].size + TotalSize(chunks[1..])
  }

  function TotalFee(chunks: seq<FeeFrac>): int {
    if chunks == [] then 0 else chunks[0].fee + TotalFee(chunks[1..])
  }

  /** How far the point (x, y) lies above the line of slope `l`. */
  ghost function Over(l: FeeFrac, x: real, y: real): real {
    y * l.size as real - l.fee as real * x
  }

  /** The largest excess of an end of a chunk. */
  ghost function Peak(l: FeeFrac, chunks: seq<FeeFrac>): (m: int)
    ensures m >= 0
  {
    if chunks == [] then 0
    else var m := Excess(l, chunks[0]) + Peak(l, chunks[1..]); if m > 0 then m else 0
  }

  lemma {:induction false} OverScaled(l: FeeFrac, c: FeeFrac, t: real)
    ensures Over(l, t * c.size as real, c.fee as real * t) == t * Excess(l, c) as real
  {
    calc {
      Over(l, t * c.size as real, c.fee as real * t);
      (c.fee as real * t) * l.size as real - l.fee as real * (t * c.size as real);
      t * (c.fee as real * l.size as real) - t * (l.fee as real * c.size as real);
      t * (c.fee as real * l.size as real - l.fee as real * c.size as real);
      { assert c.fee as real * l.size as real == (c.fee * l.size) as real;
        assert l.fee as real * c.size as real == (l.fee * c.size) as real; }
      t * Excess(l, c) as real;
    }
  }

  lemma {:induction false} OverShift(l: FeeFrac, c: FeeFrac, x: real, y: real)
    ensures Over(l, x, c.fee as real + y) == Excess(l, c) as real + Over(l, x - c.size as real, y)
  {
    OverScaled(l, c, 1.0);
    var s, f := c.size as real, c.fee as real;
    assert (f + y) * l.size as real == f * l.size as real + y * l.size as real;
    assert l.fee as real * x == l.fee as real * s + l.fee as real * (x - s);
  }

  lemma {:induction false} ScaledBound(t: real, e: int, b: int)
    requires 0.0 <= t <= 1.0 && b >= 0 && b >= e
    ensures t * e as real <= b as real
  {
    if e <= 0 {
      assert t * e as real <= 0.0;
    } else {
      assert t * e as real <= 1.0 * e as real;
    }
  }

  /** No point of the diagram rises above the highest chunk end. */
  lemma {:induction false} DiagramBelowPeak(l: FeeFrac, chunks: seq<FeeFrac>, x: real)
    requires Positive(chunks) && 0.0 <= x <= TotalSize(chunks) as real
    ensures Over(l, x, DiagramAt(chunks, x)) <= Peak(l, chunks) as real
  {
    if chunks == [] {
    } else {
      var c, rest := chunks[0], chunks[1..];
      assert c.size > 0 && Positive(rest);
      if x <= c.size as real {
        var t := x / c.size as real;
        assert t * c.size as real == x;
        OverScaled(l, c, t);
        ScaledBound(t, Excess(l, c), Peak(l, chunks));
      } else {
        DiagramBelowPeak(l, rest, x - c.size as real);
        OverShift(l, c, x, DiagramAt(rest, x - c.size as real));
      }
    }
  }

  lemma {:induction false} PeakZero(l: FeeFrac, chunks: seq<FeeFrac>)
    requires forall i {:trigger chunks[i]} :: 0 <= i < |chunks| ==> Excess(l, chunks[i]) <= 0
    ensures Peak(l, chunks) == 0
  {
    if chunks != [] { PeakZero(l, chunks[1..]); }
  }

  /** At every point of a concave diagram there is a slope for which that point is the peak. */
  lemma {:induction false} SupportingSlope(chunks: seq<FeeFrac>, x: real) returns (l: FeeFrac)
    requires Positive(chunks) && Descending(chunks) && 0.0 <= x <= TotalSize(chunks) as real
    ensures l.size > 0 && (chunks != [] ==> l in chunks)
    ensures Over(l, x, DiagramAt(chunks, x)) == Peak(l, chunks) as real
  {
    if chunks == [] {
      l := FeeFrac(0, 1);
    } else {
      var c, rest := chunks[0], chunks[1..];
      assert c.size > 0 && Positive(rest) && Descending(rest);
      if x <= c.size as real {
        l := c;
        var t := x / c.size as real;
        assert t * c.size as real == x;
        OverScaled(l, c, t);
        PeakZero(c, chunks);
      } else {
        assert rest != [];
        l := SupportingSlope(rest, x - c.size as real);
        var k :| 0 <= k < |rest| && rest[k] == l;
        assert chunks[k + 1] == l && Excess(chunks[0], chunks[k + 1]) <= 0;
        ExcessAntisymmetric(c, l);
        OverShift(l, c, x, DiagramAt(rest, x - c.size as real));
      }
    }
  }

  /** The peak is a point of the diagram. */
  lemma {:induction false} PeakAttained(l: FeeFrac, chunks: seq<FeeFrac>) returns (x: real)
    requires Positive(chunks)
    ensures 0.0 <= x <= TotalSize(chunks) as real
    ensures Over(l, x, DiagramAt(chunks, x)) == Peak(l, chunks) as real
  {
    if chunks == [] {
      x := 0.0;
    } else {
      var c, rest := chunks[0], chunks[1..];
      assert c.size > 0 && Positive(rest);
      TotalSizeNonNegative(rest);
      if Peak(l, chunks) == 0 {
        x := 0.0;
        OverScaled(l, c, 0.0);
      } else {
        var y := PeakAttained(l, rest);
        x := c.size as real + y;
        if y == 0.0 {
          OverScaled(l, c, 1.0);
          DiagramAtZero(rest);
          assert x / c.size as real == 1.0;
        } else {
          OverShift(l, c, x, DiagramAt(rest, y));
        }
      }
    }
  }

  lemma {:induction false} DiagramAtZero(chunks: seq<FeeFrac>)
    requires Positive(chunks)
    ensures DiagramAt(chunks, 0.0) == 0.0
  {
    if chunks != [] {
      assert chunks[0].size > 0;
      assert 0.0 / chunks[0].size as real == 0.0;
    }
  }

  lemma {:induction false} TotalSizeNonNegative(chunks: seq<FeeFrac>)
    requires Positive(chunks)
    ensures TotalSize(chunks) >= 0
  {
    if chunks != [] {
      assert chunks[0].size > 0;
      TotalSizeNonNegative(chunks[1..]);
    }
  }

  /** After the last chunk the diagram stays at the total fee. */
  lemma {:induction false} DiagramBeyond(chunks: seq<FeeFrac>, x: real)
    requires Positive(chunks) && x >= TotalSize(chunks) as real
    ensures DiagramAt(chunks, x) == TotalFee(chunks) as real
  {
    if chunks != [] {
      var c, rest := chunks[0], chunks[1..];
      assert c.size > 0 && Positive(rest);
      TotalSizeNonNegative(rest);
      if x <= c.size as real {
        assert x / c.size as real == 1.0;
        PositiveTotal(rest);
      } else {
        DiagramBeyond(rest, x - c.size as real);
      }
    }
  }

  lemma {:induction false} PositiveTotal(chunks: seq<FeeFrac>)
    requires Positive(chunks) && TotalSize(chunks) <= 0
    ensures chunks == []
  {
    if chunks != [] {
      assert chunks[0].size > 0;
      TotalSizeNonNegative(chunks[1..]);
    }
  }

  // ---- Chunks of a linearization ----

  function Rates(g: Graph, segs: seq<seq<nat>>): (r: seq<FeeFrac>)
    ensures |r| == |segs| && forall i :: 0 <= i < |segs| ==> r[i] == SeqRate(g, segs[i])
  {
    seq(|segs|, i requires 0 <= i < |segs| => SeqRate(g, segs[i]))
  }

  lemma {:induction false} RatesCons(g: Graph, segs: seq<seq<nat>>)
    requires segs != []
    ensures Rates(g, segs)[0] == SeqRate(g, segs[0]) && Rates(g, segs)[1..] == Rates(g, segs[1..])
  {
  }

  lemma {:induction false} RatesShape(g: Graph, segs: seq<seq<nat>>)
    requires PositiveSizes(g) && Chunked(g, segs) && Elems(Flatten(segs)) <= g.used
    ensures Positive(Rates(g, segs)) && Descending(Rates(g, segs))
  {
    var r := Rates(g, segs);
    forall i | 0 <= i < |r| ensures r[i].size > 0 {
      SegInFlatten(segs, i);
      SeqSizePositive(g, segs[i]);
    }
    forall i, j | 0 <= i <= j < |r| ensures Excess(r[i], r[j]) <= 0 { ChunkedMonotone(g, segs, i, j); }
  }

  /** Chunking conserves the total fee and size. */
  lemma {:induction false} RatesTotal(g: Graph, segs: seq<seq<nat>>)
    ensures TotalSize(Rates(g, segs)) == SeqRate(g, Flatten(segs)).size
    ensures TotalFee(Rates(g, segs)) == SeqRate(g, Flatten(segs)).fee
  {
    if segs != [] {
      RatesCons(g, segs);
      RatesTotal(g, segs[1..]);
      SeqRateConcat(g, segs[0], Flatten(segs[1..]));
    }
  }

  lemma {:induction false} PeakIsPositivePart(g: Graph, segs: seq<seq<nat>>, l: FeeFrac)
    requires forall i, j :: 0 <= i < j < |segs| && SeqSum(Slope(g, l), segs[j]) > 0 ==> SeqSum(Slope(g, l), segs[i]) > 0
    ensures Peak(l, Rates(g, segs)) == PositivePart(Slope(g, l), segs)
  {
    if segs != [] {
      var rest := segs[1..];
      assert forall i :: 0 <= i < |rest| ==> rest[i] == segs[i + 1];
      RatesCons(g, segs);
      PeakIsPositivePart(g, rest, l);
      SeqExcess(g, l, segs[0]);
      if SeqSum(Slope(g, l), segs[0]) <= 0 {
        forall i | 0 <= i < |rest| ensures SeqSum(Slope(g, l), rest[i]) <= 0 { assert rest[i] == segs[i + 1]; }
        PositivePartBound(Slope(g, l), rest);
      }
    }
  }

  lemma {:induction false} PeakIsHeaviestPrefix(g: Graph, segs: seq<seq<nat>>, l: FeeFrac)
    requires PositiveSizes(g) && Chunked(g, segs) && Elems(Flatten(segs)) <= g.used && l.size > 0
    ensures Peak(l, Rates(g, segs)) == MaxPrefix(Slope(g, l), Flatten(segs))
  {
    forall i, j | 0 <= i < j < |segs| && SeqSum(Slope(g, l), segs[j]) > 0 ensures SeqSum(Slope(g, l), segs[i]) > 0 {
      ChunkHeavier(g, segs, i, j, l);
    }
    PeakIsPositivePart(g, segs, l);
    ChunksEnvelope(g, segs, l);
  }

  /** Diagram `a` is nowhere below diagram `b`. */
  ghost predicate NowhereBelow(a: seq<FeeFrac>, b: seq<FeeFrac>) {
    && Positive(a) && Positive(b)
    && forall x: real {:trigger DiagramAt(a, x)} {:trigger DiagramAt(b, x)} :: x >= 0.0 ==>
        DiagramAt(a, x) >= DiagramAt(b, x)
  }

  lemma {:induction false} OverMonotone(l: FeeFrac, x: real, y: real, z: real)
    requires l.size > 0
    ensures y >= z <==> Over(l, x, y) >= Over(l, x, z)
  {
    assert Over(l, x, y) - Over(l, x, z) == (y - z) * l.size as real;
  }

  /** A concave diagram whose peaks are at least as high for every slope is nowhere lower. */
  lemma {:induction false} PeakDominance(a: seq<FeeFrac>, b: seq<FeeFrac>)
    requires Positive(a) && Descending(a) && Positive(b) && TotalSize(a) == TotalSize(b)
    requires forall l: FeeFrac {:trigger Peak(l, a)} :: l.size > 0 ==> Peak(l, a) >= Peak(l, b)
    ensures NowhereBelow(a, b)
  {
    TotalSizeNonNegative(a);
    forall x: real | x >= 0.0 ensures DiagramAt(a, x) >= DiagramAt(b, x) {
      var end := TotalSize(a) as real;
      if x > end {
        DiagramBeyond(a, x);
        DiagramBeyond(b, x);
        DiagramBeyond(a, end);
        DiagramBeyond(b, end);
      }
      var y := if x > end then end else x;
      var l := SupportingSlope(a, y);
      assert Peak(l, a) >= Peak(l, b);
      DiagramBelowPeak(l, b, y);
      OverMonotone(l, y, DiagramAt(a, y), DiagramAt(b, y));
    }
  }

  /** One linearization of a set is as good as another exactly when its feerate diagram is nowhere
      below the other's. */
  lemma {:induction false} DiagramDominance(g: Graph, a: seq<nat>, b: seq<nat>)
    requires PositiveSizes(g) && Distinct(a) && Distinct(b) && Elems(a) == Elems(b) && Elems(a) <= g.used
    ensures AsGood(g, a, b) <==> NowhereBelow(Rates(g, Chunks(g, a)), Rates(g, Chunks(g, b)))
  {
    hide MaxPrefix, Peak, DiagramAt;
    var sa, sb := Chunks(g, a), Chunks(g, b);
    var ra, rb := Rates(g, sa), Rates(g, sb);
    ChunksChunked(g, a);
    ChunksChunked(g, b);
    RatesShape(g, sa);
    RatesShape(g, sb);
    RatesTotal(g, sa);
    RatesTotal(g, sb);
    SeqRateElems(g, a);
    SeqRateElems(g, b);
    forall l: FeeFrac | l.size > 0
      ensures Peak(l, ra) == MaxPrefix(Slope(g, l), a) && Peak(l, rb) == MaxPrefix(Slope(g, l), b)
    {
      PeakIsHeaviestPrefix(g, sa, l);
      PeakIsHeaviestPrefix(g, sb, l);
    }
    if AsGood(g, a, b) {
      forall l: FeeFrac | l.size > 0 ensures Peak(l, ra) >= Peak(l, rb) {
        assert MaxPrefix(Slope(g, l), a) >= MaxPrefix(Slope(g, l), b);
      }
      PeakDominance(ra, rb);
    }
    if NowhereBelow(ra, rb) {
      forall l: FeeFrac | l.size > 0 ensures MaxPrefix(Slope(g, l), a) >= MaxPrefix(Slope(g, l), b) {
        var x := PeakAttained(l, rb);
        DiagramBelowPeak(l, ra, x);
        assert DiagramAt(ra, x) >= DiagramAt(rb, x);
        OverMonotone(l, x, DiagramAt(ra, x), DiagramAt(rb, x));
      }
    }
  }

  // ---- ChunkLinearization ----

  /** Compute the feerates of the chunks of a linearization. */
  method ChunkLinearization(g: Graph, linearization: seq<nat>) returns (ret: seq<FeeFrac>)
    ensures ret == Rates(g, Chunks(g, linearization))
  {
    ret := [];
    assert linearization[..0] == [];
    for i := 0 to |linearization|
      invariant ret == Rates(g, Chunks(g, linearization[..i]))
    {
      ghost var c := [linearization[i]];
      SeqRateSingleton(g, linearization[i]);
      assert linearization[..i + 1][..i] == linearization[..i];
      ret := AppendChunk(g, ret, FeeRate(g, linearization[i]), Chunks(g, linearization[..i]), c);
    }
    assert linearization[..|linearization|] == linearization;
  }

  /** The inner loop: absorb the last chunks while the new one has higher feerate, then append it. */
  method AppendChunk(g: Graph, chunks: seq<FeeFrac>, rate: FeeFrac, ghost old': seq<seq<nat>>, ghost c': seq<nat>)
    returns (ret: seq<FeeFrac>)
    requires chunks == Rates(g, old') && rate == SeqRate(g, c')
    ensures ret == Rates(g, Absorb(g, old', c'))
  {
    var newChunk := rate;
    ret := chunks;
    ghost var segs, c := old', c';
    while ret != [] && Higher(newChunk, ret[|ret| - 1])
      invariant ret == Rates(g, segs) && newChunk == SeqRate(g, c)
      invariant Absorb(g, segs, c) == Absorb(g, old', c')
      decreases |ret|
    {
      var last := ret[|ret| - 1];
      SeqRateConcat(g, segs[|segs| - 1], c);
      c := segs[|segs| - 1] + c;
      segs := segs[..|segs| - 1];
      newChunk := FeeFrac(newChunk.fee + last.fee, newChunk.size + last.size);
      ret := ret[..|ret| - 1];
    }
    ret := ret + [newChunk];
    assert Absorb(g, segs, c) == segs + [c];
  }
}
