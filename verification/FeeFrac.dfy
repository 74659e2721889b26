/** Fee/size pairs and the orders on them (src/util/feefrac.h).

    Fees and sizes are unbounded here: the source asks its callers to keep sums inside
    int64_t and int32_t, and compares through a 96- or 128-bit product that cannot overflow. */
module FeeFracs {

  datatype FeeFrac = FeeFrac(fee: int, size: int)

  const EMPTY := FeeFrac(0, 0)

  predicate IsEmpty(a: FeeFrac) {
    a.size == 0
  }

  /** Operator `>>`: strictly higher feerate. */
  predicate Higher(a: FeeFrac, b: FeeFrac) {
    a.fee * b.size > b.fee * a.size
  }

  /** Operator `<<`: strictly lower feerate. */
  predicate Lower(a: FeeFrac, b: FeeFrac) {
    a.fee * b.size < b.fee * a.size
  }

  /** Operator `>`: higher feerate, or equal feerate and smaller size. */
  predicate Better(a: FeeFrac, b: FeeFrac) {
    a.fee * b.size > b.fee * a.size || (a.fee * b.size == b.fee * a.size && a.size < b.size)
  }

  /** How far `a` lies above the line through the origin with the slope of `l`, scaled by the
      size of `l`. For a fixed slope this is additive in `a`, which is what turns every argument
      about feerates of sets into an argument about sums of integers. */
  function Excess(l: FeeFrac, a: FeeFrac): int {
    a.fee * l.size - l.fee * a.size
  }

  lemma ExcessPlus(l: FeeFrac, a: FeeFrac, b: FeeFrac)
    ensures Excess(l, FeeFrac(a.fee + b.fee, a.size + b.size)) == Excess(l, a) + Excess(l, b)
  {
    assert (a.fee + b.fee) * l.size == a.fee * l.size + b.fee * l.size;
    assert l.fee * (a.size + b.size) == l.fee * a.size + l.fee * b.size;
  }

  lemma {:induction false} ExcessAntisymmetric(a: FeeFrac, b: FeeFrac)
    ensures Excess(a, b) == -Excess(b, a)
  {
  }

  /** A value at least as steep as `m`, which is at least as steep as `l`, is at least as steep
      as `l`; strictly so if either step is strict. */
  lemma SteeperTrans(l: FeeFrac, m: FeeFrac, a: FeeFrac)
    requires l.size > 0 && m.size > 0 && a.size >= 0
    requires Excess(l, m) >= 0 && Excess(m, a) >= 0
    ensures Excess(l, a) >= 0
    ensures Excess(m, a) > 0 ==> Excess(l, a) > 0
    ensures Excess(l, m) > 0 && a.size > 0 ==> Excess(l, a) > 0
  {
    ScaledExcess(l, m, a);
    var x, y := l.size * Excess(m, a), a.size * Excess(l, m);
    assert x >= 0 && y >= 0;
    assert Excess(m, a) > 0 ==> x > 0;
    assert Excess(l, m) > 0 && a.size > 0 ==> y > 0;
    PositiveFactor(m.size, Excess(l, a));
  }

  lemma FlatterTrans(l: FeeFrac, m: FeeFrac, a: FeeFrac)
    requires l.size > 0 && m.size > 0 && a.size >= 0
    requires Excess(l, m) <= 0 && Excess(m, a) <= 0
    ensures Excess(l, a) <= 0
    ensures Excess(m, a) < 0 ==> Excess(l, a) < 0
    ensures Excess(l, m) < 0 && a.size > 0 ==> Excess(l, a) < 0
  {
    ScaledExcess(l, m, a);
    var x, y := l.size * Excess(m, a), a.size * Excess(l, m);
    assert x <= 0 && y <= 0;
    assert Excess(m, a) < 0 ==> x < 0;
    assert Excess(l, m) < 0 && a.size > 0 ==> y < 0;
    PositiveFactor(m.size, Excess(l, a));
  }

  lemma ScaledExcess(l: FeeFrac, m: FeeFrac, a: FeeFrac)
    ensures m.size * Excess(l, a) == l.size * Excess(m, a) + a.size * Excess(l, m)
  {
    calc {
      l.size * Excess(m, a) + a.size * Excess(l, m);
      l.size * (a.fee * m.size - m.fee * a.size) + a.size * (m.fee * l.size - l.fee * m.size);
      l.size * (a.fee * m.size) - l.size * (m.fee * a.size) + a.size * (m.fee * l.size) - a.size * (l.fee * m.size);
      m.size * (a.fee * l.size) - m.size * (l.fee * a.size);
      m.size * (a.fee * l.size - l.fee * a.size);
    }
  }

  lemma PositiveFactor(k: int, x: int)
    requires k > 0
    ensures k * x > 0 <==> x > 0
    ensures k * x < 0 <==> x < 0
  {
  }
}
