/** Positional numerals in any base, and how many digits a change of base needs. */
module Radix {
  import opened Powers
  import Sums

  function Pow(b: nat, n: nat): nat {
    if n == 0 then 1 else b * Pow(b, n - 1)
  }

  lemma {:induction false} PowPositive(b: nat, n: nat)
    requires b > 0
    ensures Pow(b, n) > 0
  {
    if n > 0 {
      PowPositive(b, n - 1);
      MulPositive(b, Pow(b, n - 1));
    }
  }

  lemma {:induction false} PowAdd(b: nat, m: nat, n: nat)
    ensures Pow(b, m + n) == Pow(b, m) * Pow(b, n)
  {
    if m > 0 {
      PowAdd(b, m - 1, n);
      assert Pow(b, m + n) == b * Pow(b, m - 1 + n);
      assert b * (Pow(b, m - 1) * Pow(b, n)) == b * Pow(b, m - 1) * Pow(b, n);
    }
  }

  lemma {:induction false} PowTimes(b: nat, m: nat, n: nat)
    ensures Pow(b, m * n) == Pow(Pow(b, m), n)
  {
    if n > 0 {
      PowTimes(b, m, n - 1);
      assert m * n == m + m * (n - 1);
      PowAdd(b, m, m * (n - 1));
    } else {
      assert m * n == 0;
    }
  }

  lemma {:induction false} PowMono(a: nat, b: nat, n: nat)
    requires a <= b
    ensures Pow(a, n) <= Pow(b, n)
  {
    if n > 0 {
      PowMono(a, b, n - 1);
      MulMono(a, Pow(a, n - 1), Pow(b, n - 1));
      MulMono(Pow(b, n - 1), a, b);
      assert a * Pow(b, n - 1) == Pow(b, n - 1) * a && b * Pow(b, n - 1) == Pow(b, n - 1) * b;
    }
  }

  lemma {:induction false} PowGrows(b: nat, m: nat, n: nat)
    requires b > 0 && m <= n
    ensures Pow(b, m) <= Pow(b, n)
  {
    PowAdd(b, n - m, m);
    PowPositive(b, n - m);
    MulAtLeast(Pow(b, n - m), Pow(b, m));
  }

  lemma {:induction false} PowStrict(a: nat, b: nat, n: nat)
    requires a < b && n > 0
    ensures Pow(a, n) < Pow(b, n)
  {
    PowMono(a, b, n - 1);
    PowPositive(b, n - 1);
    hide Pow;
    PowUnfold(a, n);
    PowUnfold(b, n);
    MulMono(a, Pow(a, n - 1), Pow(b, n - 1));
    MulMono(Pow(b, n - 1), a + 1, b);
    assert Pow(b, n - 1) * (a + 1) == a * Pow(b, n - 1) + Pow(b, n - 1);
    assert b * Pow(b, n - 1) == Pow(b, n - 1) * b;
  }

  lemma {:induction false} PowUnfold(b: nat, n: nat)
    requires n > 0
    ensures Pow(b, n) == b * Pow(b, n - 1)
  {
  }

  /** If b^q <= c^p, then n digits in base b fit into n * p / q + 1 digits in base c. */
  lemma {:induction false} EnoughDigits(b: nat, c: nat, p: nat, q: nat, n: nat)
    requires b > 0 && c > 1 && q > 0 && Pow(b, q) <= Pow(c, p)
    ensures Pow(b, n) <= Pow(c, n * p / q + 1)
  {
    var m := n * p / q + 1;
    if Pow(b, n) > Pow(c, m) {
      PowStrict(Pow(c, m), Pow(b, n), q);
      PowTimes(c, m, q);
      PowTimes(b, n, q);
      PowTimes(b, q, n);
      PowTimes(c, p, n);
      PowMono(Pow(b, q), Pow(c, p), n);
      assert n * q == q * n && p * n == n * p;
      Rounded(n * p, q);
      PowGrows(c, n * p, m * q);
      assert false;
    }
  }

  lemma {:induction false} Rounded(x: nat, q: nat)
    requires q > 0
    ensures x <= (x / q + 1) * q
  {
    assert x == q * (x / q) + x % q;
    assert (x / q + 1) * q == q * (x / q) + q;
  }

  lemma {:induction false} SmallPow(b: nat)
    ensures Pow(b, 1) == b && Pow(b, 2) == b * b
  {
  }

  /** log(256) / log(58) is below 138 / 100. */
  lemma {:induction false} BytesToBase58()
    ensures Pow(256, 100) <= Pow(58, 138)
  {
    hide Pow;
    SmallPow(256);
    SmallPow(58);
    PowAdd(256, 2, 2);
    PowAdd(256, 4, 4);
    PowAdd(58, 2, 2);
    PowAdd(58, 4, 2);
    PowAdd(58, 4, 4);
    PowAdd(58, 8, 2);
    PowAdd(58, 10, 1);
    assert Pow(256, 8) <= Pow(58, 11) && Pow(256, 4) <= Pow(58, 6);
    PowMono(Pow(256, 8), Pow(58, 11), 12);
    PowTimes(256, 8, 12);
    PowTimes(58, 11, 12);
    PowAdd(256, 96, 4);
    PowAdd(58, 132, 6);
    BothSmaller(Pow(256, 96), Pow(58, 132), Pow(256, 4), Pow(58, 6));
  }

  lemma {:induction false} BothSmaller(a: nat, b: nat, c: nat, d: nat)
    requires a <= b && c <= d
    ensures a * c <= b * d
  {
    MulMono(a, c, d);
    MulMono(d, a, b);
    assert a * d == d * a && b * d == d * b;
  }

  /** log(58) / log(256) is below 733 / 1000. */
  lemma {:induction false} Base58ToBytes()
    ensures Pow(58, 1000) <= Pow(256, 733)
  {
    hide Pow;
    Powers71();
    PowMono(Pow(58, 71), Pow(256, 52), 14);
    PowTimes(58, 71, 14);
    PowTimes(256, 52, 14);
    PowAdd(58, 994, 6);
    PowAdd(256, 728, 5);
    BothSmaller(Pow(58, 994), Pow(256, 728), Pow(58, 6), Pow(256, 5));
  }

  lemma {:induction false} Powers71()
    ensures Pow(58, 71) <= Pow(256, 52) && Pow(58, 6) <= Pow(256, 5)
  {
    hide Pow;
    SmallPow(256);
    SmallPow(58);
    PowAdd(256, 2, 2);
    PowAdd(256, 4, 1);
    PowAdd(256, 4, 4);
    PowAdd(256, 8, 8);
    PowAdd(256, 16, 16);
    PowAdd(256, 32, 16);
    PowAdd(256, 48, 4);
    PowAdd(58, 2, 2);
    PowAdd(58, 4, 2);
    PowAdd(58, 6, 1);
    PowAdd(58, 4, 4);
    PowAdd(58, 8, 8);
    PowAdd(58, 16, 16);
    PowAdd(58, 32, 32);
    PowAdd(58, 64, 7);
  }

  // ---- Numerals ----

  predicate DigitsBelow(b: nat, s: seq<nat>) {
    forall i {:trigger s[i]} :: 0 <= i < |s| ==> s[i] < b
  }

  /** The number with these digits, highest first. */
  function ValueOf(b: nat, s: seq<nat>): nat {
    if s == [] then 0 else ValueOf(b, s[..|s| - 1]) * b + s[|s| - 1]
  }

  /** The digits of a number, highest first, without leading zeros. */
  function DigitsOf(b: nat, v: nat): seq<nat>
    requires b > 1
  {
    if v == 0 then [] else
      DivLess(v, b);
      DigitsOf(b, v / b) + [v % b]
  }

  lemma {:induction false} DivLess(v: nat, b: nat)
    requires v > 0 && b > 1
    ensures 0 <= v / b < v && 0 <= v % b < b && v == b * (v / b) + v % b
  {
    var q := v / b;
    assert v == b * q + v % b;
    if q >= v { MulMono(q, 2, b); }
  }

  predicate NoLeadingZero(s: seq<nat>) {
    s != [] ==> s[0] != 0
  }

  lemma {:induction false} ValueOfDigits(b: nat, v: nat)
    requires b > 1
    ensures ValueOf(b, DigitsOf(b, v)) == v && DigitsBelow(b, DigitsOf(b, v)) && NoLeadingZero(DigitsOf(b, v))
  {
    if v != 0 {
      var q, r := SplitDigit(b, v);
      hide DigitsOf, ValueOf;
      ValueOfDigits(b, q);
      SnocDigit(b, DigitsOf(b, q), r);
      NoDigits(b);
    }
  }

  lemma {:induction false} NoDigits(b: nat)
    requires b > 1
    ensures DigitsOf(b, 0) == [] && ValueOf(b, []) == 0
  {
  }

  lemma {:induction false} SplitDigit(b: nat, v: nat) returns (q: nat, r: nat)
    requires b > 1 && v > 0
    ensures DigitsOf(b, v) == DigitsOf(b, q) + [r] && q < v && r < b && q * b + r == v && (q == 0 ==> r == v)
  {
    DivLess(v, b);
    q, r := v / b, v % b;
    if q == 0 { assert b * q == 0; }
  }

  lemma {:induction false} SnocDigit(b: nat, s: seq<nat>, r: nat)
    ensures ValueOf(b, s + [r]) == ValueOf(b, s) * b + r
  {
    assert (s + [r])[..|s|] == s;
  }

  lemma {:induction false} PositiveValue(b: nat, s: seq<nat>)
    requires b > 0 && s != [] && s[0] != 0
    ensures ValueOf(b, s) > 0
  {
    if |s| > 1 {
      PositiveValue(b, s[..|s| - 1]);
      MulPositive(ValueOf(b, s[..|s| - 1]), b);
    }
  }

  lemma {:induction false} DigitsOfValue(b: nat, s: seq<nat>)
    requires b > 1 && DigitsBelow(b, s) && NoLeadingZero(s)
    ensures DigitsOf(b, ValueOf(b, s)) == s
  {
    if s != [] {
      var n := |s| - 1;
      DigitsOfValue(b, s[..n]);
      PositiveValue(b, s);
      var v := ValueOf(b, s[..n]);
      assert v * b == b * v;
      DivUnique(v * b + s[n], b, v, s[n]);
      assert s == s[..n] + [s[n]];
    }
  }

  lemma {:induction false} ValueOfBound(b: nat, s: seq<nat>)
    requires b > 0 && DigitsBelow(b, s)
    ensures ValueOf(b, s) < Pow(b, |s|)
  {
    if s != [] {
      var n := |s| - 1;
      ValueOfBound(b, s[..n]);
      MulMono(b, ValueOf(b, s[..n]) + 1, Pow(b, n));
      assert b * (ValueOf(b, s[..n]) + 1) == ValueOf(b, s[..n]) * b + b;
    }
  }

  // ---- Numerals, lowest digit first ----

  function LowFirst(b: nat, s: seq<nat>): nat {
    if s == [] then 0 else s[0] + b * LowFirst(b, s[1..])
  }

  lemma {:induction false} LowFirstTerms(b: nat, low: nat, p: nat, high: nat)
    ensures b * (low + p * high) == b * low + b * p * high
  {
    assert b * (p * high) == b * p * high;
  }

  lemma {:induction false} LowFirstAt(b: nat, s: seq<nat>, i: nat)
    requires i <= |s|
    ensures LowFirst(b, s) == LowFirst(b, s[..i]) + Pow(b, i) * LowFirst(b, s[i..])
  {
    if i == 0 {
      assert s[..0] == [] && s[0..] == s;
    } else {
      LowFirstAt(b, s[1..], i - 1);
      assert s[..i][1..] == s[1..][..i - 1] && s[i..] == s[1..][i - 1..] && s[..i][0] == s[0];
      LowFirstTerms(b, LowFirst(b, s[1..][..i - 1]), Pow(b, i - 1), LowFirst(b, s[i..]));
    }
  }

  lemma {:induction false} LowFirstZeros(b: nat, s: seq<nat>)
    requires forall i {:trigger s[i]} :: 0 <= i < |s| ==> s[i] == 0
    ensures LowFirst(b, s) == 0
  {
    if s != [] { LowFirstZeros(b, s[1..]); }
  }

  lemma {:induction false} LowFirstBound(b: nat, s: seq<nat>)
    requires b > 0 && DigitsBelow(b, s)
    ensures LowFirst(b, s) < Pow(b, |s|)
  {
    if s != [] {
      LowFirstBound(b, s[1..]);
      MulMono(b, LowFirst(b, s[1..]) + 1, Pow(b, |s| - 1));
      assert b * (LowFirst(b, s[1..]) + 1) == b * LowFirst(b, s[1..]) + b;
    }
  }

  lemma {:induction false} ReverseValue(b: nat, s: seq<nat>)
    ensures ValueOf(b, Sums.Reverse(s)) == LowFirst(b, s)
    ensures DigitsBelow(b, s) ==> DigitsBelow(b, Sums.Reverse(s))
    ensures s != [] ==> Sums.Reverse(s)[0] == s[|s| - 1]
  {
    if s != [] {
      ReverseValue(b, s[1..]);
      var r := Sums.Reverse(s);
      assert r[..|r| - 1] == Sums.Reverse(s[1..]);
    }
  }
}
