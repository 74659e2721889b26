/** Finite sets of positions, sequences of positions, and integer weights summed over them. */
module Sums {

  // ---- Positions of a set in increasing order (the iteration order of the bit sets) ----

  lemma {:induction false} HasFirst(s: set<nat>)
    requires s != {}
    ensures exists x :: x in s && forall y :: y in s ==> x <= y
  {
    var x := LeastOf(s);
    assert x in s;
  }

  lemma {:induction false} LeastOf(s: set<nat>) returns (r: nat)
    requires s != {}
    ensures r in s && forall y :: y in s ==> r <= y
  {
    r :| r in s;
    var x, rest := r, s - {r};
    assert forall y :: y in s ==> y == x || y in rest;
    if rest != {} {
      var m := LeastOf(rest);
      if m < x { r := m; }
    }
  }

  lemma {:induction false} HasLast(s: set<nat>)
    requires s != {}
    ensures exists x :: x in s && forall y :: y in s ==> y <= x
  {
    var x := GreatestOf(s);
    assert x in s;
  }

  lemma {:induction false} GreatestOf(s: set<nat>) returns (r: nat)
    requires s != {}
    ensures r in s && forall y :: y in s ==> y <= r
  {
    r :| r in s;
    var x, rest := r, s - {r};
    assert forall y :: y in s ==> y == x || y in rest;
    if rest != {} {
      var m := GreatestOf(rest);
      if m > x { r := m; }
    }
  }

  function First(s: set<nat>): (x: nat)
    requires s != {}
    ensures x in s && forall y :: y in s ==> x <= y
  {
    HasFirst(s);
    var x :| x in s && forall y :: y in s ==> x <= y;
    x
  }

  function Last(s: set<nat>): (x: nat)
    requires s != {}
    ensures x in s && forall y :: y in s ==> y <= x
  {
    HasLast(s);
    var x :| x in s && forall y :: y in s ==> y <= x;
    x
  }

  /** The positions below n. */
  function Fill(n: nat): (s: set<nat>)
    ensures forall i: nat :: i in s <==> i < n
  {
    if n == 0 then {} else Fill(n - 1) + {n - 1}
  }

  lemma {:induction false} SubsetCard<T>(a: set<T>, b: set<T>)
    requires a <= b
    ensures |a| <= |b|
    ensures a != b ==> |a| < |b|
  {
    assert b == a + (b - a);
    if b - a == {} { assert a == b; }
  }

  // ---- Sequences ----

  predicate Distinct<T(==)>(s: seq<T>) {
    forall i, j :: 0 <= i < j < |s| ==> s[i] != s[j]
  }

  function Elems(s: seq<nat>): set<nat> {
    set x | x in s
  }

  lemma {:induction false} ElemsConcat(a: seq<nat>, b: seq<nat>)
    ensures Elems(a + b) == Elems(a) + Elems(b)
  {
  }

  /** The subsequence of `s` lying in `keep`. */
  function Filter(s: seq<nat>, keep: set<nat>): (r: seq<nat>)
    ensures Elems(r) == Elems(s) * keep
    ensures |r| <= |s|
  {
    if s == [] then []
    else
      var rest := Filter(s[1..], keep);
      assert Elems(s) == {s[0]} + Elems(s[1..]) by { assert s == [s[0]] + s[1..]; ElemsConcat([s[0]], s[1..]); }
      if s[0] in keep then
        ElemsConcat([s[0]], rest);
        [s[0]] + rest
      else rest
  }

  lemma {:induction false} FilterConcat(a: seq<nat>, b: seq<nat>, keep: set<nat>)
    ensures Filter(a + b, keep) == Filter(a, keep) + Filter(b, keep)
  {
    if a == [] {
      assert a + b == b;
    } else {
      assert (a + b)[1..] == a[1..] + b;
      FilterConcat(a[1..], b, keep);
    }
  }

  lemma {:induction false} FilterDistinct(s: seq<nat>, keep: set<nat>)
    requires Distinct(s)
    ensures Distinct(Filter(s, keep))
  {
    if s != [] {
      FilterDistinct(s[1..], keep);
      var rest := Filter(s[1..], keep);
      assert Distinct(s[1..]);
      assert s[0] !in Elems(s[1..]);
      assert s[0] !in Elems(rest);
    }
  }

  lemma {:induction false} FilterAll(s: seq<nat>, keep: set<nat>)
    requires Elems(s) <= keep
    ensures Filter(s, keep) == s
  {
    if s != [] {
      assert s[0] in Elems(s);
      assert Elems(s[1..]) <= Elems(s);
      FilterAll(s[1..], keep);
    }
  }

  lemma {:induction false} FilterNone(s: seq<nat>, keep: set<nat>)
    requires Elems(s) !! keep
    ensures Filter(s, keep) == []
  {
    if s != [] {
      assert s[0] in Elems(s);
      assert Elems(s[1..]) <= Elems(s);
      FilterNone(s[1..], keep);
    }
  }

  lemma {:induction false} FilterFilter(s: seq<nat>, a: set<nat>, b: set<nat>)
    ensures Filter(Filter(s, a), b) == Filter(s, a * b)
  {
    if s != [] {
      FilterFilter(s[1..], a, b);
      var rest := Filter(s[1..], a);
      if s[0] in a { assert ([s[0]] + rest)[1..] == rest; }
    }
  }

  lemma {:induction false} FilterCongruent(s: seq<nat>, a: set<nat>, b: set<nat>)
    requires forall x :: x in s ==> (x in a <==> x in b)
    ensures Filter(s, a) == Filter(s, b)
  {
    if s != [] {
      assert s[0] in s;
      FilterCongruent(s[1..], a, b);
    }
  }

  lemma {:induction false} DistinctConcat(a: seq<nat>, b: seq<nat>)
    requires Distinct(a) && Distinct(b) && Elems(a) !! Elems(b)
    ensures Distinct(a + b)
  {
    var c := a + b;
    forall i, j | 0 <= i < j < |c| ensures c[i] != c[j] {
      if i < |a| && j >= |a| {
        assert c[i] in Elems(a) && c[j] in Elems(b);
      }
    }
  }

  lemma {:induction false} DistinctSplit(a: seq<nat>, b: seq<nat>)
    requires Distinct(a + b)
    ensures Distinct(a) && Distinct(b) && Elems(a) !! Elems(b)
  {
    var c := a + b;
    assert forall i :: 0 <= i < |a| ==> c[i] == a[i];
    assert forall i :: 0 <= i < |b| ==> c[|a| + i] == b[i];
    forall i, j | 0 <= i < |a| && 0 <= j < |b| ensures a[i] != b[j] {
      assert c[i] != c[|a| + j];
    }
  }

  lemma {:induction false} DistinctCard(s: seq<nat>)
    requires Distinct(s)
    ensures |Elems(s)| == |s|
  {
    if s != [] {
      DistinctCard(s[1..]);
      assert s == [s[0]] + s[1..];
      ElemsConcat([s[0]], s[1..]);
      assert s[0] !in Elems(s[1..]);
      assert Elems(s) == {s[0]} + Elems(s[1..]);
    }
  }

  // ---- Sums of weights ----

  type Weight = nat -> int

  function SeqSum(w: Weight, s: seq<nat>): int {
    if s == [] then 0 else w(s[0]) + SeqSum(w, s[1..])
  }

  lemma {:induction false} SeqSumConcat(w: Weight, a: seq<nat>, b: seq<nat>)
    ensures SeqSum(w, a + b) == SeqSum(w, a) + SeqSum(w, b)
  {
    if a == [] {
      assert a + b == b;
    } else {
      assert (a + b)[1..] == a[1..] + b;
      SeqSumConcat(w, a[1..], b);
    }
  }

  lemma {:induction false} SeqSumSingle(w: Weight, x: nat)
    ensures SeqSum(w, [x]) == w(x)
  {
    assert [x][1..] == [];
    assert SeqSum(w, []) == 0;
  }

  /** A set of positions written out as a sequence, in some order. */
  ghost function Listing(s: set<nat>): (q: seq<nat>)
    ensures Distinct(q) && Elems(q) == s
  {
    HasListing(s);
    var q: seq<nat> :| Distinct(q) && Elems(q) == s;
    q
  }

  lemma {:induction false} HasListing(s: set<nat>)
    ensures exists q: seq<nat> :: Distinct(q) && Elems(q) == s
  {
    if s == {} {
      assert Distinct<nat>([]) && Elems([]) == s;
    } else {
      var x :| x in s;
      HasListing(s - {x});
      var q: seq<nat> :| Distinct(q) && Elems(q) == s - {x};
      DistinctConcat([x], q);
      ElemsConcat([x], q);
      assert Distinct([x] + q) && Elems([x] + q) == s;
    }
  }

  ghost function SetSum(w: Weight, s: set<nat>): int {
    SeqSum(w, Listing(s))
  }

  lemma {:induction false} SeqSumPermutation(w: Weight, a: seq<nat>, b: seq<nat>)
    requires Distinct(a) && Distinct(b) && Elems(a) == Elems(b)
    ensures SeqSum(w, a) == SeqSum(w, b)
    decreases |a|
  {
    if a == [] {
      assert forall i :: 0 <= i < |b| ==> b[i] in Elems(b);
    } else {
      assert a[0] in Elems(b);
      var k :| 0 <= k < |b| && b[k] == a[0];
      var p, q := b[..k], b[k + 1..];
      assert b == p + ([a[0]] + q);
      SeqSumConcat(w, p, [a[0]] + q);
      SeqSumConcat(w, p, q);
      assert ([a[0]] + q)[1..] == q;
      var c := p + q;
      RemoveAt(b, k);
      assert a == [a[0]] + a[1..];
      DistinctSplit([a[0]], a[1..]);
      ElemsConcat([a[0]], a[1..]);
      assert Elems(a[1..]) == Elems(c);
      SeqSumPermutation(w, a[1..], c);
    }
  }

  lemma {:induction false} RemoveAt(b: seq<nat>, k: nat)
    requires Distinct(b) && k < |b|
    ensures Distinct(b[..k] + b[k + 1..]) && Elems(b[..k] + b[k + 1..]) == Elems(b) - {b[k]}
  {
    var c := b[..k] + b[k + 1..];
    forall x | x in b && x != b[k] ensures x in c {
      var i :| 0 <= i < |b| && b[i] == x;
      assert x == if i < k then c[i] else c[i - 1];
    }
  }

  lemma {:induction false} SeqSumElems(w: Weight, s: seq<nat>)
    requires Distinct(s)
    ensures SeqSum(w, s) == SetSum(w, Elems(s))
  {
    SeqSumPermutation(w, s, Listing(Elems(s)));
  }

  lemma {:induction false} SetSumUnion(w: Weight, a: set<nat>, b: set<nat>)
    requires a !! b
    ensures SetSum(w, a + b) == SetSum(w, a) + SetSum(w, b)
  {
    var p, q := Listing(a), Listing(b);
    DistinctConcat(p, q);
    ElemsConcat(p, q);
    SeqSumElems(w, p + q);
    SeqSumConcat(w, p, q);
  }

  lemma {:induction false} SetSumEmpty(w: Weight)
    ensures SetSum(w, {}) == 0
  {
    SeqSumElems(w, []);
    assert Elems([]) == {};
  }

  lemma {:induction false} SetSumSingleton(w: Weight, x: nat)
    ensures SetSum(w, {x}) == w(x)
  {
    SeqSumElems(w, [x]);
    assert Elems([x]) == {x};
    assert [x][1..] == [];
  }

  lemma {:induction false} SetSumRemove(w: Weight, s: set<nat>, x: nat)
    requires x in s
    ensures SetSum(w, s) == w(x) + SetSum(w, s - {x})
  {
    assert s == {x} + (s - {x});
    SetSumUnion(w, {x}, s - {x});
    SetSumSingleton(w, x);
  }

  lemma {:induction false} SetSumSplit(w: Weight, a: set<nat>, b: set<nat>)
    ensures SetSum(w, a) == SetSum(w, a * b) + SetSum(w, a - b)
  {
    assert a == (a * b) + (a - b);
    SetSumUnion(w, a * b, a - b);
  }

  lemma {:induction false} SetSumSign(w: Weight, s: set<nat>)
    ensures (forall x :: x in s ==> w(x) >= 0) ==> SetSum(w, s) >= 0
    ensures (forall x :: x in s ==> w(x) <= 0) ==> SetSum(w, s) <= 0
    ensures s != {} && (forall x :: x in s ==> w(x) > 0) ==> SetSum(w, s) > 0
    ensures s != {} && (forall x :: x in s ==> w(x) < 0) ==> SetSum(w, s) < 0
  {
    SeqSumSign(w, Listing(s));
    var q := Listing(s);
    assert forall x :: x in q ==> x in Elems(q);
    assert s != {} ==> q != [];
  }

  lemma {:induction false} SeqSumSign(w: Weight, s: seq<nat>)
    ensures (forall x :: x in s ==> w(x) >= 0) ==> SeqSum(w, s) >= 0
    ensures (forall x :: x in s ==> w(x) <= 0) ==> SeqSum(w, s) <= 0
    ensures s != [] && (forall x :: x in s ==> w(x) > 0) ==> SeqSum(w, s) > 0
    ensures s != [] && (forall x :: x in s ==> w(x) < 0) ==> SeqSum(w, s) < 0
  {
    if s != [] {
      SeqSumSign(w, s[1..]);
      assert s[0] in s;
      assert forall x :: x in s[1..] ==> x in s;
    }
  }

  // ---- The heaviest prefix of a sequence ----

  /** The largest total weight of a (possibly empty) prefix of `s`. */
  function MaxPrefix(w: Weight, s: seq<nat>): (m: int)
    ensures m >= 0
  {
    if s == [] then 0
    else var m := w(s[0]) + MaxPrefix(w, s[1..]); if m > 0 then m else 0
  }

  lemma {:induction false} MaxPrefixConcat(w: Weight, a: seq<nat>, b: seq<nat>)
    ensures MaxPrefix(w, a) <= MaxPrefix(w, a + b) && SeqSum(w, a) + MaxPrefix(w, b) <= MaxPrefix(w, a + b)
    ensures MaxPrefix(w, a + b) == MaxPrefix(w, a) || MaxPrefix(w, a + b) == SeqSum(w, a) + MaxPrefix(w, b)
  {
    if a == [] {
      assert a + b == b;
    } else {
      assert (a + b)[1..] == a[1..] + b;
      MaxPrefixConcat(w, a[1..], b);
    }
  }

  /** `MaxPrefix` is an upper bound on the weight of every prefix, and one of them attains it. */
  lemma {:induction false} MaxPrefixIsMax(w: Weight, s: seq<nat>)
    ensures forall k :: 0 <= k <= |s| ==> SeqSum(w, s[..k]) <= MaxPrefix(w, s)
    ensures exists k :: 0 <= k <= |s| && SeqSum(w, s[..k]) == MaxPrefix(w, s)
  {
    if s == [] {
      assert SeqSum(w, s[..0]) == 0;
    } else {
      var t := s[1..];
      MaxPrefixIsMax(w, t);
      forall k | 0 <= k <= |s| ensures SeqSum(w, s[..k]) <= MaxPrefix(w, s) {
        if k > 0 {
          assert s[..k][1..] == t[..k - 1];
        }
      }
      var k :| 0 <= k <= |t| && SeqSum(w, t[..k]) == MaxPrefix(w, t);
      assert s[..k + 1][1..] == t[..k];
      assert SeqSum(w, s[..0]) == 0;
      assert SeqSum(w, s[..k + 1]) == w(s[0]) + MaxPrefix(w, t);
    }
  }

  lemma {:induction false} MaxPrefixCongruent(v: Weight, w: Weight, s: seq<nat>)
    requires forall x :: x in s ==> v(x) <= w(x)
    ensures MaxPrefix(v, s) <= MaxPrefix(w, s)
  {
    if s != [] {
      assert s[0] in s;
      MaxPrefixCongruent(v, w, s[1..]);
    }
  }

  /** Reading a sequence backwards with negated weights trades prefixes for suffixes. */
  lemma {:induction false} MaxPrefixReverse(v: Weight, w: Weight, s: seq<nat>)
    requires forall x :: x in s ==> v(x) == -w(x)
    ensures MaxPrefix(w, s) == MaxPrefix(v, Reverse(s)) + SeqSum(w, s)
  {
    if s == [] {
    } else {
      var t := s[1..];
      assert s[0] in s;
      MaxPrefixReverse(v, w, t);
      MaxPrefixConcat(v, Reverse(t), [s[0]]);
      SeqSumNegated(v, w, t);
      SeqSumReverse(v, t);
      assert [s[0]][1..] == [];
    }
  }

  function Reverse(s: seq<nat>): (r: seq<nat>)
    ensures |r| == |s|
  {
    if s == [] then [] else Reverse(s[1..]) + [s[0]]
  }

  lemma {:induction false} ReverseAt(s: seq<nat>, k: nat)
    requires k < |s|
    ensures Reverse(s)[k] == s[|s| - 1 - k]
  {
    if k < |s| - 1 { ReverseAt(s[1..], k); }
  }

  lemma {:induction false} ReverseConcat(a: seq<nat>, b: seq<nat>)
    ensures Reverse(a + b) == Reverse(b) + Reverse(a)
  {
    if a == [] {
      assert a + b == b;
    } else {
      assert (a + b)[1..] == a[1..] + b;
      ReverseConcat(a[1..], b);
    }
  }

  lemma {:induction false} ReverseReverse(a: seq<nat>)
    ensures Reverse(Reverse(a)) == a
  {
    if a != [] {
      ReverseReverse(a[1..]);
      ReverseConcat(Reverse(a[1..]), [a[0]]);
      assert Reverse([a[0]]) == [a[0]] by { assert [a[0]][1..] == []; }
    }
  }

  lemma {:induction false} ReverseElems(a: seq<nat>)
    ensures Elems(Reverse(a)) == Elems(a)
    ensures Distinct(a) ==> Distinct(Reverse(a))
  {
    var r := Reverse(a);
    forall k | 0 <= k < |a| ensures r[k] == a[|a| - 1 - k] { ReverseAt(a, k); }
    forall x | x in a ensures x in r {
      var i :| 0 <= i < |a| && a[i] == x;
      assert r[|a| - 1 - i] == x;
    }
    forall x | x in r ensures x in a {
      var i :| 0 <= i < |a| && r[i] == x;
      assert a[|a| - 1 - i] == x;
    }
  }

  lemma {:induction false} SeqSumReverse(w: Weight, s: seq<nat>)
    ensures SeqSum(w, Reverse(s)) == SeqSum(w, s)
  {
    if s != [] {
      SeqSumReverse(w, s[1..]);
      SeqSumConcat(w, Reverse(s[1..]), [s[0]]);
      assert [s[0]][1..] == [];
      assert SeqSum(w, [s[0]]) == w(s[0]);
    }
  }

  lemma {:induction false} SeqSumNegated(v: Weight, w: Weight, s: seq<nat>)
    requires forall x :: x in s ==> v(x) == -w(x)
    ensures SeqSum(v, s) == -SeqSum(w, s)
  {
    if s != [] {
      assert s[0] in s;
      SeqSumNegated(v, w, s[1..]);
    }
  }

  lemma {:induction false} SetSumNegated(v: Weight, w: Weight, s: set<nat>)
    requires forall x :: x in s ==> v(x) == -w(x)
    ensures SetSum(v, s) == -SetSum(w, s)
  {
    var q := Listing(s);
    forall x | x in q ensures v(x) == -w(x) { assert x in Elems(q); }
    SeqSumNegated(v, w, q);
  }
}
