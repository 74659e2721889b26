/** The polynomial division behind the Bech32 checksum (src/bech32.cpp): a residue is a polynomial
    of degree five over GF(32), six coefficients of five bits. */
module Bech32Poly {

  // ---- GF(32), as a vector space over GF(2) ----

  function Plus(x: bv5, y: bv5): bv5 {
    x ^ y
  }

  lemma PlusLaws(x: bv5, y: bv5)
    ensures Plus(x, 0) == x && Plus(0, x) == x
    ensures Plus(x, y) == Plus(y, x)
    ensures Plus(x, y) == 0 <==> x == y
    ensures Plus(Plus(x, y), y) == x
  {
  }

  lemma PlusInterchange(x: bv5, x': bv5, y: bv5, y': bv5)
    ensures Plus(Plus(x, x'), Plus(y, y')) == Plus(Plus(x, y), Plus(x', y'))
  {
  }

  predicate Bit(x: bv5, mask: bv5) {
    x & mask != 0
  }

  lemma BitsLinear(x: bv5, y: bv5)
    ensures Bit(Plus(x, y), 1) == (Bit(x, 1) != Bit(y, 1))
    ensures Bit(Plus(x, y), 2) == (Bit(x, 2) != Bit(y, 2))
    ensures Bit(Plus(x, y), 4) == (Bit(x, 4) != Bit(y, 4))
    ensures Bit(Plus(x, y), 8) == (Bit(x, 8) != Bit(y, 8))
    ensures Bit(Plus(x, y), 16) == (Bit(x, 16) != Bit(y, 16))
  {
  }

  // ---- Residues ----

  /** c0 x^5 + c1 x^4 + c2 x^3 + c3 x^2 + c4 x + c5 */
  datatype Poly = Poly(c0: bv5, c1: bv5, c2: bv5, c3: bv5, c4: bv5, c5: bv5)

  const ZERO: Poly := Poly(0, 0, 0, 0, 0, 0)
  const ONE: Poly := Poly(0, 0, 0, 0, 0, 1)

  function Add(p: Poly, q: Poly): Poly {
    Poly(Plus(p.c0, q.c0), Plus(p.c1, q.c1), Plus(p.c2, q.c2), Plus(p.c3, q.c3), Plus(p.c4, q.c4), Plus(p.c5, q.c5))
  }

  lemma AddLaws(p: Poly, q: Poly)
    ensures Add(p, ZERO) == p && Add(ZERO, p) == p
    ensures Add(p, q) == Add(q, p)
    ensures Add(p, q) == ZERO <==> p == q
    ensures Add(Add(p, q), q) == p
  {
    hide Plus;
    PlusLaws(p.c0, q.c0);
    PlusLaws(p.c1, q.c1);
    PlusLaws(p.c2, q.c2);
    PlusLaws(p.c3, q.c3);
    PlusLaws(p.c4, q.c4);
    PlusLaws(p.c5, q.c5);
  }

  lemma PlusAssociative(x: bv5, y: bv5, z: bv5)
    ensures Plus(Plus(x, y), z) == Plus(x, Plus(y, z))
  {
  }

  lemma AddAssociative(p: Poly, q: Poly, r: Poly)
    ensures Add(Add(p, q), r) == Add(p, Add(q, r))
  {
    hide Plus;
    PlusAssociative(p.c0, q.c0, r.c0);
    PlusAssociative(p.c1, q.c1, r.c1);
    PlusAssociative(p.c2, q.c2, r.c2);
    PlusAssociative(p.c3, q.c3, r.c3);
    PlusAssociative(p.c4, q.c4, r.c4);
    PlusAssociative(p.c5, q.c5, r.c5);
  }

  lemma AddInterchange(p: Poly, p': Poly, q: Poly, q': Poly)
    ensures Add(Add(p, p'), Add(q, q')) == Add(Add(p, q), Add(p', q'))
  {
    hide Plus;
    PlusInterchange(p.c0, p'.c0, q.c0, q'.c0);
    PlusInterchange(p.c1, p'.c1, q.c1, q'.c1);
    PlusInterchange(p.c2, p'.c2, q.c2, q'.c2);
    PlusInterchange(p.c3, p'.c3, q.c3, q'.c3);
    PlusInterchange(p.c4, p'.c4, q.c4, q'.c4);
    PlusInterchange(p.c5, p'.c5, q.c5, q'.c5);
  }

  // ---- x^6 modulo the generator, and its multiples ----

  const K1: Poly := Poly(29, 22, 20, 21, 29, 18)
  const K2: Poly := Poly(19, 5, 1, 3, 19, 13)
  const K4: Poly := Poly(15, 10, 2, 6, 15, 26)
  const K8: Poly := Poly(30, 20, 4, 12, 30, 29)
  const K16: Poly := Poly(21, 1, 8, 24, 21, 19)

  function When(b: bool, p: Poly): Poly {
    if b then p else ZERO
  }

  /** c0 times x^6, modulo the generator. */
  function Feedback(c0: bv5): Poly {
    Add(Add(Add(Add(When(Bit(c0, 1), K1), When(Bit(c0, 2), K2)), When(Bit(c0, 4), K4)), When(Bit(c0, 8), K8)),
        When(Bit(c0, 16), K16))
  }

  lemma WhenLinear(b: bool, b': bool, p: Poly)
    ensures When(b != b', p) == Add(When(b, p), When(b', p))
  {
    hide Add;
    AddLaws(p, p);
    AddLaws(ZERO, ZERO);
  }

  lemma FeedbackLinear(x: bv5, y: bv5)
    ensures Feedback(Plus(x, y)) == Add(Feedback(x), Feedback(y))
  {
    hide Bit, When, Plus, Add;
    BitsLinear(x, y);
    WhenLinear(Bit(x, 1), Bit(y, 1), K1);
    WhenLinear(Bit(x, 2), Bit(y, 2), K2);
    WhenLinear(Bit(x, 4), Bit(y, 4), K4);
    WhenLinear(Bit(x, 8), Bit(y, 8), K8);
    WhenLinear(Bit(x, 16), Bit(y, 16), K16);
    var a, a' := When(Bit(x, 1), K1), When(Bit(y, 1), K1);
    var b, b' := When(Bit(x, 2), K2), When(Bit(y, 2), K2);
    var c, c' := When(Bit(x, 4), K4), When(Bit(y, 4), K4);
    var d, d' := When(Bit(x, 8), K8), When(Bit(y, 8), K8);
    AddInterchange(a, a', b, b');
    AddInterchange(Add(a, b), Add(a', b'), c, c');
    AddInterchange(Add(Add(a, b), c), Add(Add(a', b'), c'), d, d');
    AddInterchange(Add(Add(Add(a, b), c), d), Add(Add(Add(a', b'), c'), d'), When(Bit(x, 16), K16),
        When(Bit(y, 16), K16));
  }

  // ---- One step ----

  function Shifted(p: Poly, v: bv5): Poly {
    Poly(p.c1, p.c2, p.c3, p.c4, p.c5, v)
  }

  /** p times x, plus v, modulo the generator. */
  function Step(p: Poly, v: bv5): Poly {
    Add(Shifted(p, v), Feedback(p.c0))
  }

  /** A step is linear over GF(2). */
  lemma StepLinear(p: Poly, v: bv5, q: Poly, w: bv5)
    ensures Step(Add(p, q), Plus(v, w)) == Add(Step(p, v), Step(q, w))
  {
    hide Feedback, Plus;
    FeedbackLinear(p.c0, q.c0);
    assert Shifted(Add(p, q), Plus(v, w)) == Add(Shifted(p, v), Shifted(q, w));
    AddInterchange(Shifted(p, v), Shifted(q, w), Feedback(p.c0), Feedback(q.c0));
  }

  /** The coefficient that a step fed back, from the lowest coefficient it left. */
  function Fed(low: bv5): bv5 {
    Plus(Plus(Plus(Plus(if Bit(low, 1) then 17 else 0, if Bit(low, 2) then 11 else 0), if Bit(low, 4) then 22 else 0),
              if Bit(low, 8) then 5 else 0), if Bit(low, 16) then 10 else 0)
  }

  lemma FedInverse(x: bv5)
    ensures Fed(Feedback(x).c5) == x
    ensures Feedback(Fed(x)).c5 == x
  {
  }

  /** The step undone. */
  function StepBack(r: Poly, v: bv5): Poly {
    var c0 := Fed(Plus(r.c5, v));
    var s := Add(r, Feedback(c0));
    Poly(c0, s.c0, s.c1, s.c2, s.c3, s.c4)
  }

  /** For every symbol, a step is a bijection on residues. */
  lemma StepBijective(p: Poly, v: bv5)
    ensures StepBack(Step(p, v), v) == p
    ensures Step(StepBack(p, v), v) == p
  {
    hide Feedback, Plus, Fed;
    AddLaws(Shifted(p, v), Feedback(p.c0));
    PlusLaws(v, Feedback(p.c0).c5);
    PlusLaws(Feedback(p.c0).c5, v);
    FedInverse(p.c0);
    var c0 := Fed(Plus(p.c5, v));
    FedInverse(Plus(p.c5, v));
    AddLaws(p, Feedback(c0));
    PlusLaws(p.c5, v);
    PlusLaws(Plus(p.c5, v), v);
  }

  // ---- Whole words ----

  /** What is left of p after the symbols: the word with p's coefficients in front, modulo the generator. */
  function Residue(p: Poly, v: seq<bv5>): Poly {
    if v == [] then p else Step(Residue(p, v[..|v| - 1]), v[|v| - 1])
  }

  lemma {:induction false} ResidueSnoc(p: Poly, v: seq<bv5>, x: bv5)
    ensures Residue(p, v + [x]) == Step(Residue(p, v), x)
  {
    assert (v + [x])[..|v|] == v;
  }

  lemma {:induction false} ResidueConcat(p: Poly, v: seq<bv5>, w: seq<bv5>)
    ensures Residue(p, v + w) == Residue(Residue(p, v), w)
    decreases |w|
  {
    if w == [] {
      assert v + w == v;
    } else {
      var n := |w| - 1;
      assert (v + w)[..|v + w| - 1] == v + w[..n];
      ResidueConcat(p, v, w[..n]);
    }
  }

  function Sum(v: seq<bv5>, w: seq<bv5>): (r: seq<bv5>)
    requires |v| == |w|
    ensures |r| == |v|
  {
    seq(|v|, i requires 0 <= i < |v| => Plus(v[i], w[i]))
  }

  /** The residue of a sum is the sum of the residues. */
  lemma {:induction false} ResidueLinear(p: Poly, v: seq<bv5>, q: Poly, w: seq<bv5>)
    requires |v| == |w|
    ensures Residue(Add(p, q), Sum(v, w)) == Add(Residue(p, v), Residue(q, w))
    decreases |v|
  {
    hide Add, Step, Plus;
    if v != [] {
      var n := |v| - 1;
      assert Sum(v, w)[..n] == Sum(v[..n], w[..n]);
      ResidueLinear(p, v[..n], q, w[..n]);
      StepLinear(Residue(p, v[..n]), v[n], Residue(q, w[..n]), w[n]);
    }
  }

  /** Different residues stay different, whatever symbols follow. */
  lemma {:induction false} ResidueInjective(p: Poly, q: Poly, v: seq<bv5>)
    requires p != q
    ensures Residue(p, v) != Residue(q, v)
    decreases |v|
  {
    hide Step, StepBack;
    if v != [] {
      var n := |v| - 1;
      ResidueInjective(p, q, v[..n]);
      StepBijective(Residue(p, v[..n]), v[n]);
      StepBijective(Residue(q, v[..n]), v[n]);
    }
  }

  /** Words that differ in exactly one symbol have different residues. */
  lemma {:induction false} OneErrorDetected(p: Poly, v: seq<bv5>, i: nat, x: bv5)
    requires i < |v| && v[i] != x
    ensures Residue(p, v[i := x]) != Residue(p, v)
  {
    hide Step;
    assert v == v[..i] + [v[i]] + v[i + 1..];
    assert v[i := x] == v[..i] + [x] + v[i + 1..];
    ResidueConcat(p, v[..i] + [v[i]], v[i + 1..]);
    ResidueConcat(p, v[..i] + [x], v[i + 1..]);
    ResidueSnoc(p, v[..i], v[i]);
    ResidueSnoc(p, v[..i], x);
    StepSymbols(Residue(p, v[..i]), v[i], x);
    ResidueInjective(Step(Residue(p, v[..i]), v[i]), Step(Residue(p, v[..i]), x), v[i + 1..]);
  }

  lemma StepSymbols(p: Poly, v: bv5, w: bv5)
    requires v != w
    ensures Step(p, v) != Step(p, w)
  {
    hide Feedback, Plus;
    AddLaws(Shifted(p, v), Feedback(p.c0));
    AddLaws(Shifted(p, w), Feedback(p.c0));
  }

  // ---- Six symbols fill a residue ----

  function Symbols(p: Poly): (s: seq<bv5>)
    ensures |s| == 6
  {
    [p.c0, p.c1, p.c2, p.c3, p.c4, p.c5]
  }

  function OfSymbols(s: seq<bv5>): Poly
    requires |s| == 6
  {
    Poly(s[0], s[1], s[2], s[3], s[4], s[5])
  }

  function Zeros(n: nat): (s: seq<bv5>)
    ensures |s| == n
  {
    seq(n, i => 0)
  }

  lemma StepFromLow(p: Poly, v: bv5)
    requires p.c0 == 0
    ensures Step(p, v) == Shifted(p, v)
  {
    assert Feedback(0) == ZERO by {
      AddLaws(ZERO, ZERO);
    }
    AddLaws(Shifted(p, v), ZERO);
  }

  /** From zero, six symbols are just written down. */
  lemma SixSymbols(s: seq<bv5>)
    requires |s| == 6
    ensures Residue(ZERO, s) == OfSymbols(s)
  {
    hide Step;
    var p0 := ZERO;
    assert s[..0] == [];
    Feed(s, 0, p0);
    Feed(s, 1, Shifted(p0, s[0]));
    Feed(s, 2, Poly(0, 0, 0, 0, s[0], s[1]));
    Feed(s, 3, Poly(0, 0, 0, s[0], s[1], s[2]));
    Feed(s, 4, Poly(0, 0, s[0], s[1], s[2], s[3]));
    Feed(s, 5, Poly(0, s[0], s[1], s[2], s[3], s[4]));
    assert s[..6] == s;
  }

  lemma Feed(s: seq<bv5>, i: nat, p: Poly)
    requires i < |s| && p.c0 == 0 && Residue(ZERO, s[..i]) == p
    ensures Residue(ZERO, s[..i + 1]) == Shifted(p, s[i])
  {
    hide Step;
    assert s[..i + 1] == s[..i] + [s[i]];
    ResidueSnoc(ZERO, s[..i], s[i]);
    StepFromLow(p, s[i]);
  }

  /** The last six symbols are added to what six zeros in their place would leave. */
  lemma TrailingSymbols(p: Poly, v: seq<bv5>, s: seq<bv5>)
    requires |s| == 6
    ensures Residue(p, v + s) == Add(Residue(p, v + Zeros(6)), OfSymbols(s))
  {
    hide Step, Add, Plus;
    ResidueConcat(p, v, s);
    ResidueConcat(p, v, Zeros(6));
    var r := Residue(p, v);
    ResidueLinear(r, Zeros(6), ZERO, s);
    AddLaws(r, ZERO);
    forall i | 0 <= i < 6
      ensures Sum(Zeros(6), s)[i] == s[i]
    {
      PlusLaws(s[i], 0);
    }
    assert Sum(Zeros(6), s) == s;
    SixSymbols(s);
  }

  /** Exactly one choice of the last six symbols reaches a given residue: the difference to the residue
      that six zeros leave. */
  lemma ChecksumUnique(v: seq<bv5>, target: Poly, s: seq<bv5>)
    requires |s| == 6
    ensures Residue(ONE, v + s) == target <==> s == Symbols(Add(Residue(ONE, v + Zeros(6)), target))
  {
    hide Step, Add, Residue;
    TrailingSymbols(ONE, v, s);
    var r := Residue(ONE, v + Zeros(6));
    var q := OfSymbols(s);
    AddLaws(q, r);
    AddLaws(target, r);
    assert Symbols(q) == s;
    assert OfSymbols(Symbols(Add(r, target))) == Add(r, target);
  }
}
