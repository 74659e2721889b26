/** Powers, bitwise or, and numbers as sequences of 32-bit digits. */
module Powers {
  function Pow2(n: nat): (r: nat)
    ensures r > 0
  {
    if n == 0 then 1 else 2 * Pow2(n - 1)
  }

  lemma {:induction false} Pow2Add(a: nat, b: nat)
    ensures Pow2(a + b) == Pow2(a) * Pow2(b)
  {
    if a > 0 {
      Pow2Add(a - 1, b);
      assert Pow2(a + b) == 2 * Pow2(a - 1 + b);
      Twice(Pow2(a - 1), Pow2(b));
    }
  }

  lemma {:induction false} Twice(x: nat, y: nat)
    ensures 2 * (x * y) == 2 * x * y
  {
  }

  lemma {:induction false} Pow2Order(a: nat, b: nat)
    ensures a <= b <==> Pow2(a) <= Pow2(b)
    ensures a < b <==> 2 * Pow2(a) <= Pow2(b)
  {
    if a < b {
      Pow2Add(b - a - 1, a + 1);
      MulAtLeast(Pow2(b - a - 1), Pow2(a + 1));
    } else if a > b {
      Pow2Add(a - b - 1, b + 1);
      MulAtLeast(Pow2(a - b - 1), Pow2(b + 1));
    }
  }

  lemma {:induction false} MulAtLeast(a: nat, b: nat)
    requires a > 0
    ensures a * b >= b
  {
    assert a * b == (a - 1) * b + b;
  }

  const BASE: nat := 0x1_0000_0000

  lemma {:induction false} BaseIsPow2()
    ensures Pow2(32) == BASE && Pow2(8) == 256 && Pow2(16) == 0x10000 && Pow2(24) == 0x1000000
  {
    assert Pow2(4) == 16;
    Pow2Add(4, 4);
    Pow2Add(8, 8);
    Pow2Add(8, 16);
    Pow2Add(16, 16);
  }

  // ---- Division by positive numbers ----

  lemma {:induction false} DivUnique(n: int, d: int, q: int, r: int)
    requires d > 0 && n == d * q + r && 0 <= r < d
    ensures n / d == q && n % d == r
  {
    if n / d > q {
      assert d * (n / d) >= d * (q + 1) by { MulMono(d, q + 1, n / d); }
    } else if n / d < q {
      assert d * q >= d * (n / d + 1) by { MulMono(d, n / d + 1, q); }
    }
  }

  lemma {:induction false} MulMono(d: int, a: int, b: int)
    requires d >= 0 && a <= b
    ensures d * a <= d * b
  {
    assert d * b - d * a == d * (b - a);
  }

  lemma {:induction false} ModOfSum(n: int, k: int, d: int)
    requires d > 0
    ensures (n + d * k) % d == n % d
  {
    DivUnique(n + d * k, d, n / d + k, n % d);
  }

  lemma {:induction false} DivOfProduct(n: int, d: int, e: int)
    requires d > 0 && e > 0 && n >= 0
    ensures d * e > 0 && n / (d * e) == n / d / e
  {
    MulPositive(d, e);
    var q, r := n / d, n % d;
    var q2, r2 := q / e, q % e;
    assert n == d * q + r && q == e * q2 + r2;
    assert d * q == d * e * q2 + d * r2;
    MulMono(d, r2 + 1, e);
    MulMono(d, 0, r2);
    DivUnique(n, d * e, q2, d * r2 + r);
  }

  lemma {:induction false} MulPositive(a: int, b: int)
    requires a > 0 && b > 0
    ensures a * b > 0
  {
  }

  // ---- Bitwise or ----

  function Or(a: nat, b: nat): nat
    decreases a + b
  {
    if a == 0 then b else if b == 0 then a else
      (if a % 2 == 1 || b % 2 == 1 then 1 else 0) + 2 * Or(a / 2, b / 2)
  }

  /** Numbers without common bits: one below 2^k, the other a multiple of it. */
  lemma {:induction false} OrDisjoint(a: nat, b: nat, k: nat)
    requires b < Pow2(k) && a % Pow2(k) == 0
    ensures Or(a, b) == a + b && Or(b, a) == a + b
    decreases k
  {
    if k > 0 && a != 0 && b != 0 {
      var q := a / Pow2(k);
      assert a == Pow2(k) * q == 2 * (Pow2(k - 1) * q);
      assert a / 2 == Pow2(k - 1) * q;
      DivUnique(a / 2, Pow2(k - 1), q, 0);
      OrDisjoint(a / 2, b / 2, k - 1);
    }
  }

  // ---- Digits ----

  function BPow(n: nat): (r: nat)
    ensures r > 0
  {
    if n == 0 then 1 else BASE * BPow(n - 1)
  }

  lemma {:induction false} BPowAdd(a: nat, b: nat)
    ensures BPow(a + b) == BPow(a) * BPow(b)
  {
    if a > 0 {
      BPowAdd(a - 1, b);
      assert BPow(a + b) == BASE * BPow(a - 1 + b);
      assert BASE * (BPow(a - 1) * BPow(b)) == BASE * BPow(a - 1) * BPow(b);
    }
  }

  lemma {:induction false} BPowIsPow2(n: nat)
    ensures BPow(n) == Pow2(32 * n)
  {
    if n > 0 {
      BPowIsPow2(n - 1);
      BaseIsPow2();
      Pow2Add(32, 32 * (n - 1));
    }
  }

  /** All digits are 32-bit numbers. */
  predicate Digits(s: seq<nat>) {
    forall i {:trigger s[i]} :: 0 <= i < |s| ==> s[i] < BASE
  }

  /** The number with these digits, the lowest first. */
  function Value(s: seq<nat>): nat {
    if s == [] then 0 else Value(s[..|s| - 1]) + s[|s| - 1] * BPow(|s| - 1)
  }

  lemma {:induction false} ValueSnoc(s: seq<nat>, i: nat)
    requires i < |s|
    ensures Value(s[..i + 1]) == Value(s[..i]) + s[i] * BPow(i)
  {
    assert s[..i + 1][..i] == s[..i];
  }

  lemma {:induction false} ValueBound(s: seq<nat>)
    requires Digits(s)
    ensures Value(s) < BPow(|s|)
  {
    if s != [] {
      var n := |s| - 1;
      ValueBound(s[..n]);
      var p := BPow(n);
      assert BPow(|s|) == BASE * p;
      hide BPow;
      OneMoreDigit(Value(s[..n]), s[n], p);
    }
  }

  lemma {:induction false} Distribute(p: nat, v: nat, d: nat, q: nat)
    ensures p * v + d * (p * q) == p * (v + d * q)
  {
    assert d * (p * q) == p * (d * q);
  }

  lemma {:induction false} OneMoreDigit(v: nat, d: nat, p: nat)
    requires v < p && d < BASE
    ensures v + d * p < BASE * p
  {
    MulMono(p, d + 1, BASE);
    assert p * (d + 1) == d * p + p;
  }

  lemma {:induction false} ValueConcat(a: seq<nat>, b: seq<nat>)
    ensures Value(a + b) == Value(a) + BPow(|a|) * Value(b)
  {
    if b == [] {
      assert a + b == a;
    } else {
      var n := |b| - 1;
      ValueConcat(a, b[..n]);
      assert (a + b)[..|a| + n] == a + b[..n] && (a + b)[|a| + n] == b[n];
      BPowAdd(|a|, n);
      hide BPow;
      Distribute(BPow(|a|), Value(b[..n]), b[n], BPow(n));
    }
  }

  /** Changing one digit. */
  lemma {:induction false} ValueUpdate(s: seq<nat>, i: nat, d: nat)
    requires i < |s|
    ensures Value(s[i := d]) == Value(s) + (d - s[i]) * BPow(i)
  {
    var a, b := s[..i], s[i + 1..];
    assert s == a + ([s[i]] + b) && s[i := d] == a + ([d] + b);
    ValueConcat(a, [s[i]] + b);
    ValueConcat(a, [d] + b);
    ValueConcat([s[i]], b);
    ValueConcat([d], b);
    assert Value([s[i]]) == s[i] && Value([d]) == d;
    assert BPow(i) * (d + BASE * Value(b)) - BPow(i) * (s[i] + BASE * Value(b)) == (d - s[i]) * BPow(i);
  }

  lemma {:induction false} ValueZeros(s: seq<nat>)
    requires forall i {:trigger s[i]} :: 0 <= i < |s| ==> s[i] == 0
    ensures Value(s) == 0
  {
    if s != [] { ValueZeros(s[..|s| - 1]); }
  }
}
