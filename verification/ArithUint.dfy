/** Fixed-width unsigned integers on 32-bit digits, lowest first (src/arith_uint256.h,
    src/arith_uint256.cpp). The width is the number of digits. */
module ArithUints {
  import opened Powers

  const WORD64: nat := 0x1_0000_0000_0000_0000

  // ---- Addition, negation, subtraction ----

  /** Splitting n into a digit and a carry keeps the total. */
  lemma {:induction false} CarryStep(n: nat, p: nat)
    ensures n % BASE * p + n / BASE * (BASE * p) == n * p
  {
    var d, c := n % BASE, n / BASE;
    assert n == d + BASE * c;
    assert c * (BASE * p) == BASE * c * p;
  }

  lemma {:induction false} ModByCarry(v: nat, carry: nat, total: nat, m: nat)
    requires m > 0 && v < m && v + carry * m == total
    ensures v == total % m
  {
    DivUnique(total, m, carry, v);
  }

  method Add(a: seq<nat>, b: seq<nat>) returns (pn: seq<nat>)
    requires |a| == |b| && Digits(a) && Digits(b)
    ensures |pn| == |a| && Digits(pn) && Value(pn) == (Value(a) + Value(b)) % BPow(|a|)
  {
    hide Value, BPow;
    pn := a;
    var carry := 0;
    StartValue(a, b);
    for i := 0 to |a|
      invariant |pn| == |a| && Digits(pn) && pn[i..] == a[i..] && 0 <= carry <= 1
      invariant Value(pn[..i]) + carry * BPow(i) == Value(a[..i]) + Value(b[..i])
    {
      var n := carry + pn[i] + b[i];
      assert pn[i] == a[i..][0] && n < WORD64;
      AddStep(a, b, pn, i, carry, n);
      pn := pn[i := n % BASE];
      carry := n / BASE;
    }
    WholeValue(a);
    WholeValue(b);
    WholeValue(pn);
    ValueBound(pn);
    ModByCarry(Value(pn), carry, Value(a) + Value(b), BPow(|a|));
  }

  lemma {:induction false} StartValue(a: seq<nat>, b: seq<nat>)
    ensures Value(a[..0]) == 0 && Value(b[..0]) == 0 && BPow(0) == 1
  {
  }

  lemma {:induction false} WholeValue(a: seq<nat>)
    ensures Value(a[..|a|]) == Value(a)
  {
    assert a[..|a|] == a;
  }

  lemma {:induction false} AddStep(a: seq<nat>, b: seq<nat>, pn: seq<nat>, i: nat, carry: nat, n: nat)
    requires i < |a| == |b| == |pn| && pn[i] == a[i] && n == carry + a[i] + b[i]
    requires Value(pn[..i]) + carry * BPow(i) == Value(a[..i]) + Value(b[..i])
    ensures Value(pn[i := n % BASE][..i + 1]) + n / BASE * BPow(i + 1) == Value(a[..i + 1]) + Value(b[..i + 1])
  {
    hide Value;
    assert BPow(i + 1) == BASE * BPow(i);
    hide BPow;
    ValueSnoc(a, i);
    ValueSnoc(b, i);
    ValueSnoc(pn[i := n % BASE], i);
    assert pn[i := n % BASE][..i] == pn[..i];
    CarryStep(n, BPow(i));
    Terms(BPow(i), carry, a[i], b[i]);
  }

  lemma {:induction false} Terms(p: nat, x: nat, y: nat, z: nat)
    ensures (x + y + z) * p == x * p + y * p + z * p
  {
  }

  /** Bitwise complement. */
  method Not(a: seq<nat>) returns (pn: seq<nat>)
    requires Digits(a)
    ensures |pn| == |a| && Digits(pn) && Value(pn) + Value(a) == BPow(|a|) - 1
  {
    hide Value, BPow;
    pn := a;
    StartValue(a, a);
    for i := 0 to |a|
      invariant |pn| == |a| && Digits(pn) && pn[i..] == a[i..] && Value(pn[..i]) + Value(a[..i]) == BPow(i) - 1
    {
      assert pn[i] == a[i..][0];
      NotStep(a, pn, i);
      pn := pn[i := BASE - 1 - pn[i]];
    }
    WholeValue(a);
    WholeValue(pn);
  }

  lemma {:induction false} NotStep(a: seq<nat>, pn: seq<nat>, i: nat)
    requires i < |a| == |pn| && a[i] < BASE && Value(pn[..i]) + Value(a[..i]) == BPow(i) - 1
    ensures Value(pn[i := BASE - 1 - a[i]][..i + 1]) + Value(a[..i + 1]) == BPow(i + 1) - 1
  {
    var s := pn[i := BASE - 1 - a[i]];
    ValueSnoc(a, i);
    ValueSnoc(s, i);
    assert s[..i] == pn[..i];
    assert BPow(i + 1) == BASE * BPow(i);
    hide BPow, Value;
    assert (BASE - 1 - a[i]) * BPow(i) + a[i] * BPow(i) == (BASE - 1) * BPow(i);
  }

  /** Prefix ++ */
  method Increment(a: seq<nat>) returns (pn: seq<nat>)
    requires Digits(a)
    ensures |pn| == |a| && Digits(pn) && Value(pn) == (Value(a) + 1) % BPow(|a|)
  {
    hide Value, BPow;
    pn := a;
    var i := 0;
    StartValue(a, a);
    ValueBound(a);
    while i < |pn|
      invariant 0 <= i <= |pn| == |a| && Digits(pn) && Value(pn) + BPow(i) == Value(a) + 1
    {
      var d := (pn[i] + 1) % BASE;
      ValueUpdate(pn, i, d);
      IncrementStep(pn[i], d, i);
      pn := pn[i := d];
      if pn[i] != 0 {
        ValueBound(pn);
        DivUnique(Value(a) + 1, BPow(|a|), 0, Value(pn));
        return;
      }
      i := i + 1;
    }
    ValueBound(pn);
    DivUnique(Value(a) + 1, BPow(|a|), 1, Value(pn));
  }

  lemma {:induction false} IncrementStep(was: nat, d: nat, i: nat)
    requires was < BASE && d == (was + 1) % BASE
    ensures if d == 0 then (d - was) * BPow(i) + BPow(i + 1) == BPow(i) else (d - was) * BPow(i) == BPow(i)
  {
    assert BPow(i + 1) == BASE * BPow(i);
    hide BPow;
    ChangeBy(d - was, BPow(i));
  }

  lemma {:induction false} ChangeBy(e: int, p: nat)
    ensures e == 1 ==> e * p == p
    ensures e == 1 - BASE ==> e * p == p - BASE * p
  {
  }

  /** Unary minus. */
  method Negate(a: seq<nat>) returns (pn: seq<nat>)
    requires Digits(a)
    ensures |pn| == |a| && Digits(pn) && Value(pn) == (BPow(|a|) - Value(a)) % BPow(|a|)
  {
    hide Value, BPow;
    pn := Not(a);
    pn := Increment(pn);
  }

  method Subtract(a: seq<nat>, b: seq<nat>) returns (pn: seq<nat>)
    requires |a| == |b| && Digits(a) && Digits(b)
    ensures |pn| == |a| && Digits(pn) && Value(pn) == (Value(a) - Value(b)) % BPow(|a|)
  {
    hide Value, BPow;
    var minus := Negate(b);
    pn := Add(a, minus);
    ValueBound(b);
    SubtractMod(Value(a), Value(b), BPow(|a|));
  }

  lemma {:induction false} SubtractMod(a: nat, b: nat, m: nat)
    requires m > 0 && b < m
    ensures (a + (m - b) % m) % m == (a - b) % m
  {
    if b == 0 {
      DivUnique(m, m, 1, 0);
    } else {
      DivUnique(m - b, m, 0, m - b);
      ModOfSum(a - b, 1, m);
    }
  }

  // ---- Comparison ----

  /** Numbers that agree above digit i compare as that digit does. */
  lemma {:induction false} CompareDigit(a: seq<nat>, b: seq<nat>, i: nat)
    requires i < |a| == |b| && Digits(a) && Digits(b) && a[i + 1..] == b[i + 1..] && a[i] < b[i]
    ensures Value(a) < Value(b)
  {
    ValueSnoc(a, i);
    ValueSnoc(b, i);
    ValueBound(a[..i]);
    assert a == a[..i + 1] + a[i + 1..] && b == b[..i + 1] + b[i + 1..];
    ValueConcat(a[..i + 1], a[i + 1..]);
    ValueConcat(b[..i + 1], b[i + 1..]);
    hide BPow, Value;
    MulMono(BPow(i), a[i] + 1, b[i]);
    assert BPow(i) * (a[i] + 1) == a[i] * BPow(i) + BPow(i);
    assert BPow(i) * b[i] == b[i] * BPow(i);
  }

  method CompareTo(a: seq<nat>, b: seq<nat>) returns (r: int)
    requires |a| == |b| && Digits(a) && Digits(b)
    ensures (r < 0 <==> Value(a) < Value(b)) && (r > 0 <==> Value(a) > Value(b))
  {
    hide Value;
    var i := |a|;
    while i > 0
      invariant 0 <= i <= |a| && a[i..] == b[i..]
    {
      i := i - 1;
      if a[i] < b[i] {
        CompareDigit(a, b, i);
        return -1;
      }
      if a[i] > b[i] {
        CompareDigit(b, a, i);
        return 1;
      }
      assert a[i..] == [a[i]] + a[i + 1..] && b[i..] == [b[i]] + b[i + 1..];
    }
    assert a == a[0..] && b == b[0..];
    r := 0;
  }

  // ---- Multiplication ----

  method MultiplySmall(a: seq<nat>, b32: nat) returns (pn: seq<nat>)
    requires Digits(a) && b32 < BASE
    ensures |pn| == |a| && Digits(pn) && Value(pn) == Value(a) * b32 % BPow(|a|)
  {
    hide Value, BPow;
    pn := a;
    var carry := 0;
    StartValue(a, a);
    for i := 0 to |a|
      invariant |pn| == |a| && Digits(pn) && pn[i..] == a[i..] && 0 <= carry < BASE
      invariant Value(pn[..i]) + carry * BPow(i) == Value(a[..i]) * b32
    {
      assert pn[i] == a[i..][0];
      ProductBound(b32, pn[i], carry, 0);
      var n := carry + b32 * pn[i];
      assert n < WORD64;
      SmallStep(a, pn, b32, i, carry, n);
      pn := pn[i := n % BASE];
      carry := n / BASE;
    }
    WholeValue(a);
    WholeValue(pn);
    ValueBound(pn);
    ModByCarry(Value(pn), carry, Value(a) * b32, BPow(|a|));
  }

  /** No 64-bit overflow, and the carry is again a 32-bit number. */
  lemma {:induction false} ProductBound(x: nat, y: nat, c: nat, d: nat)
    requires x < BASE && y < BASE && c < BASE && d < BASE
    ensures c + d + x * y < WORD64 && (c + d + x * y) / BASE < BASE
  {
    MulMono(x, y, BASE - 1);
    MulMono(BASE - 1, x, BASE - 1);
    assert x * (BASE - 1) == (BASE - 1) * x;
  }

  lemma {:induction false} SmallStep(a: seq<nat>, pn: seq<nat>, b32: nat, i: nat, carry: nat, n: nat)
    requires i < |a| == |pn| && n == carry + b32 * a[i] && Value(pn[..i]) + carry * BPow(i) == Value(a[..i]) * b32
    ensures Value(pn[i := n % BASE][..i + 1]) + n / BASE * BPow(i + 1) == Value(a[..i + 1]) * b32
  {
    hide Value;
    assert BPow(i + 1) == BASE * BPow(i);
    hide BPow;
    ValueSnoc(a, i);
    ValueSnoc(pn[i := n % BASE], i);
    assert pn[i := n % BASE][..i] == pn[..i];
    CarryStep(n, BPow(i));
    Terms(BPow(i), carry, b32 * a[i], 0);
    assert (Value(a[..i]) + a[i] * BPow(i)) * b32 == Value(a[..i]) * b32 + b32 * a[i] * BPow(i);
  }

  /** One row of the multiplication: add x * b * BASE^j to `acc`. */
  method AddRow(acc: seq<nat>, x: nat, b: seq<nat>, j: nat) returns (a: seq<nat>)
    requires j < |acc| == |b| && Digits(acc) && Digits(b) && x < BASE
    ensures |a| == |acc| && Digits(a) && Value(a) == (Value(acc) + x * BPow(j) * Value(b)) % BPow(|acc|)
  {
    hide Value, BPow;
    a := acc;
    var carry := 0;
    var i := 0;
    StartValue(b, b);
    while i + j < |acc|
      invariant 0 <= i && i + j <= |acc| && |a| == |acc| && Digits(a) && 0 <= carry < BASE
      invariant Value(a) + carry * BPow(i + j) == Value(acc) + x * BPow(j) * Value(b[..i])
    {
      ProductBound(x, b[i], carry, a[i + j]);
      var n := carry + a[i + j] + x * b[i];
      assert n < WORD64;
      RowStep(a, b, x, i, j, carry, n);
      a := a[i + j := n % BASE];
      carry := n / BASE;
      i := i + 1;
    }
    ValueBound(a);
    RowEnd(Value(a), Value(acc), carry, x, b, i, j);
  }

  lemma {:induction false} RowStep(a: seq<nat>, b: seq<nat>, x: nat, i: nat, j: nat, carry: nat, n: nat)
    requires i < |b| && i + j < |a| && n == carry + a[i + j] + x * b[i]
    ensures Value(a[i + j := n % BASE]) + n / BASE * BPow(i + j + 1) == Value(a) + carry * BPow(i + j)
            + x * BPow(j) * (Value(b[..i + 1]) - Value(b[..i]))
  {
    hide Value;
    assert BPow(i + j + 1) == BASE * BPow(i + j);
    hide BPow;
    var p := BPow(i + j);
    ValueSnoc(b, i);
    ValueUpdate(a, i + j, n % BASE);
    CarryStep(n, p);
    Terms(p, carry, a[i + j], x * b[i]);
    BPowAdd(j, i);
    Reorder(x, b[i], BPow(j), BPow(i));
    assert (n % BASE - a[i + j]) * p == n % BASE * p - a[i + j] * p;
  }

  lemma {:induction false} Reorder(x: nat, d: nat, p: nat, q: nat)
    ensures x * d * (p * q) == x * p * (d * q)
  {
    assert x * d * (p * q) == x * (d * (p * q));
    assert d * (p * q) == p * (d * q);
    assert x * (p * (d * q)) == x * p * (d * q);
  }

  /** Digits of `b` beyond the width only add multiples of the modulus. */
  lemma {:induction false} RowEnd(v: nat, before: nat, carry: nat, x: nat, b: seq<nat>, i: nat, j: nat)
    requires i + j == |b| && v < BPow(|b|) && v + carry * BPow(|b|) == before + x * BPow(j) * Value(b[..i])
    ensures v == (before + x * BPow(j) * Value(b)) % BPow(|b|)
  {
    hide Value, BPow;
    assert b == b[..i] + b[i..];
    ValueConcat(b[..i], b[i..]);
    BPowAdd(j, i);
    var m, rest := BPow(|b|), Value(b[i..]);
    Split(x, BPow(j), Value(b[..i]), BPow(i), rest);
    assert before + x * BPow(j) * Value(b) == v + (carry + x * rest) * m by {
      assert (carry + x * rest) * m == carry * m + x * rest * m;
      assert x * (BPow(j) * BPow(i)) * rest == x * rest * m;
    }
    ModByCarry(v, carry + x * rest, before + x * BPow(j) * Value(b), m);
  }

  lemma {:induction false} Split(x: nat, p: nat, low: nat, q: nat, high: nat)
    ensures x * p * (low + q * high) == x * p * low + x * (p * q) * high
  {
    assert x * p * (q * high) == x * (p * q) * high by {
      assert x * p * (q * high) == x * (p * (q * high));
      assert p * (q * high) == p * q * high;
    }
  }

  method Multiply(pn: seq<nat>, b: seq<nat>) returns (a: seq<nat>)
    requires |pn| == |b| && Digits(pn) && Digits(b)
    ensures |a| == |pn| && Digits(a) && Value(a) == Value(pn) * Value(b) % BPow(|pn|)
  {
    hide Value, BPow;
    a := seq(|pn|, _ => 0);
    ValueZeros(a);
    StartValue(pn, pn);
    ZeroMod(BPow(|pn|));
    for j := 0 to |pn|
      invariant |a| == |pn| && Digits(a) && Value(a) == Value(pn[..j]) * Value(b) % BPow(|pn|)
    {
      ghost var before := a;
      a := AddRow(a, pn[j], b, j);
      ValueSnoc(pn, j);
      RowsMod(Value(pn[..j]) * Value(b), pn[j] * BPow(j) * Value(b), BPow(|pn|));
      assert Value(pn[..j + 1]) * Value(b) == Value(pn[..j]) * Value(b) + pn[j] * BPow(j) * Value(b);
    }
    WholeValue(pn);
  }

  lemma {:induction false} ZeroMod(m: nat)
    requires m > 0
    ensures 0 % m == 0
  {
  }

  lemma {:induction false} RowsMod(a: nat, b: nat, m: nat)
    requires m > 0
    ensures (a % m + b) % m == (a + b) % m
  {
    ModOfSum(a % m + b, a / m, m);
  }

  // ---- The highest bit ----

  predicate BitAt(d: nat, n: nat) {
    d / Pow2(n) % 2 == 1
  }

  lemma {:induction false} TopBit(d: nat, n: nat)
    requires d < Pow2(n + 1)
    ensures BitAt(d, n) <==> d >= Pow2(n)
  {
    var p := Pow2(n);
    if d >= p {
      DivUnique(d, p, 1, d - p);
    } else {
      DivUnique(d, p, 0, d);
    }
  }

  /** r is the position of the highest bit plus one, or zero for zero. */
  ghost predicate BitLength(v: nat, r: nat) {
    if v == 0 then r == 0 else r > 0 && Pow2(r - 1) <= v < Pow2(r)
  }

  method Bits(a: seq<nat>) returns (r: nat)
    requires Digits(a)
    ensures BitLength(Value(a), r) && r <= 32 * |a|
  {
    hide Value, BPow, BitLength;
    var pos := |a|;
    while pos > 0
      invariant 0 <= pos <= |a| && forall i {:trigger a[i]} :: pos <= i < |a| ==> a[i] == 0
    {
      pos := pos - 1;
      if a[pos] != 0 {
        var nbits := DigitBits(a[pos]);
        BitsOfValue(a, pos, nbits);
        return 32 * pos + nbits;
      }
    }
    ValueZeros(a);
    ZeroBits();
    r := 0;
  }

  lemma {:induction false} ZeroBits()
    ensures BitLength(0, 0)
  {
  }

  method DigitBits(d: nat) returns (n: nat)
    requires 0 < d < BASE
    ensures 0 < n <= 32 && Pow2(n - 1) <= d < Pow2(n)
  {
    BaseIsPow2();
    hide Pow2;
    var nbits := 31;
    while nbits > 0
      invariant 0 <= nbits <= 31 && d < Pow2(nbits + 1)
    {
      TopBit(d, nbits);
      if BitAt(d, nbits) { return nbits + 1; }
      nbits := nbits - 1;
    }
    SmallPowers();
    n := 1;
  }

  lemma {:induction false} SmallPowers()
    ensures Pow2(0) == 1 && Pow2(1) == 2
  {
  }

  lemma {:induction false} BitsOfValue(a: seq<nat>, pos: nat, n: nat)
    requires Digits(a) && pos < |a| && (forall i {:trigger a[i]} :: pos < i < |a| ==> a[i] == 0) && 0 < n
    requires Pow2(n - 1) <= a[pos] < Pow2(n)
    ensures BitLength(Value(a), 32 * pos + n)
  {
    hide BPow, Value, Pow2;
    ValueSnoc(a, pos);
    ValueBound(a[..pos]);
    assert a == a[..pos + 1] + a[pos + 1..];
    ValueZeros(a[pos + 1..]);
    ValueConcat(a[..pos + 1], a[pos + 1..]);
    var p, d := BPow(pos), a[pos];
    BPowIsPow2(pos);
    Pow2Add(32 * pos, n);
    Pow2Add(32 * pos, n - 1);
    MulMono(p, d + 1, Pow2(n));
    MulMono(p, Pow2(n - 1), d);
    assert p * (d + 1) == d * p + p;
    assert p * d == d * p;
    assert 32 * pos + n - 1 == 32 * pos + (n - 1);
  }

  // ---- Shifts ----

  lemma {:induction false} SplitMul(x: nat, p: nat, q: nat, m: nat)
    requires p > 0 && q > 0 && m == q * p
    ensures m > 0 && x * p / m == x / q && x * p % m % p == 0 && (x < m ==> x / q < p)
  {
    MulPositive(q, p);
    var h, l := x / q, x % q;
    assert x == q * h + l;
    SplitTerms(q, h, l, p);
    MulMono(p, l + 1, q);
    MulMono(p, 0, l);
    assert p * (l + 1) == l * p + p && p * q == m;
    DivUnique(x * p, m, h, l * p);
    DivUnique(l * p, p, l, 0);
    if x < m && h >= p { MulMono(q, p, h); }
  }

  lemma {:induction false} SplitTerms(q: nat, h: nat, l: nat, p: nat)
    ensures (q * h + l) * p == q * p * h + l * p
  {
    assert q * h * p == q * p * h;
  }

  /** x * 2^s as a digit and what goes into the next one. */
  lemma {:induction false} SplitShift(x: nat, s: nat)
    requires s < 32
    ensures x * Pow2(s) / BASE == x / Pow2(32 - s)
    ensures x * Pow2(s) % BASE % Pow2(s) == 0
    ensures x < BASE ==> x / Pow2(32 - s) < Pow2(s)
  {
    BaseIsPow2();
    Pow2Add(32 - s, s);
    hide Pow2;
    SplitMul(x, Pow2(s), Pow2(32 - s), BASE);
  }

  /** Contributions beyond the width are multiples of the modulus. */
  lemma {:induction false} BeyondWidth(w: nat, e: nat, x: nat)
    requires e >= w
    ensures x * BPow(e) == x * BPow(e - w) * BPow(w)
  {
    BPowAdd(e - w, w);
    hide BPow;
    assert x * (BPow(e - w) * BPow(w)) == x * BPow(e - w) * BPow(w);
  }

  lemma {:induction false} SameMod(v: nat, v': nat, total: nat, added: nat, dropped: nat, m: nat)
    requires m > 0 && v == total % m && v' == v + added && v' < m
    ensures v' == (total + added + dropped * m) % m
  {
    ModByCarry(v', total / m + dropped, total + added + dropped * m, m);
  }

  method ShiftLeft(a: seq<nat>, shift: nat) returns (pn: seq<nat>)
    requires Digits(a)
    ensures |pn| == |a| && Digits(pn) && Value(pn) == Value(a) * Pow2(shift) % BPow(|a|)
  {
    hide Value, BPow, Pow2, Or, HalvesOf;
    var w, k, s := |a|, shift / 32, shift % 32;
    pn := seq(w, _ => 0);
    ValueZeros(pn);
    StartValue(a, a);
    ZeroMod(BPow(w));
    for i := 0 to w
      invariant ShiftedLeft(a, pn, i, k, s) && Value(pn) == Value(a[..i]) * Pow2(shift) % BPow(w)
    {
      ghost var before := pn;
      var lo, hi := a[i] * Pow2(s) % BASE, a[i] / Pow2(32 - s);
      Halves(a[i], s, lo, hi);
      LeftStep(a, pn, i, k, s, shift, lo, hi);
      if i + k + 1 < w && s != 0 { pn := pn[i + k + 1 := Or(pn[i + k + 1], hi)]; }
      if i + k < w { pn := pn[i + k := Or(pn[i + k], lo)]; }
      assert pn == LeftPut(before, lo, hi, i + k, s);
    }
    WholeValue(a);
  }

  /** The digits of one shifted digit, merged in. */
  function LeftPut(pn: seq<nat>, lo: nat, hi: nat, at: nat, s: nat): seq<nat> {
    var one := if at + 1 < |pn| && s != 0 then pn[at + 1 := Or(pn[at + 1], hi)] else pn;
    if at < |pn| then one[at := Or(one[at], lo)] else one
  }

  /** After `i` digits: nothing above the last one touched, and that one holds only its low bits. */
  ghost predicate ShiftedLeft(a: seq<nat>, pn: seq<nat>, i: nat, k: nat, s: nat) {
    && |pn| == |a| && Digits(pn) && s < 32 && (i + k < |pn| ==> pn[i + k] < Pow2(s))
    && forall j {:trigger pn[j]} :: i + k < j < |pn| ==> pn[j] == 0
  }

  lemma {:induction false} LeftStep(a: seq<nat>, pn: seq<nat>, i: nat, k: nat, s: nat, shift: nat, lo: nat, hi: nat)
    requires Digits(a) && i < |a| && shift == 32 * k + s && ShiftedLeft(a, pn, i, k, s) && HalvesOf(a[i], s, lo, hi)
    requires Value(pn) == Value(a[..i]) * Pow2(shift) % BPow(|a|)
    ensures ShiftedLeft(a, LeftPut(pn, lo, hi, i + k, s), i + 1, k, s)
    ensures Value(LeftPut(pn, lo, hi, i + k, s)) == Value(a[..i + 1]) * Pow2(shift) % BPow(|a|)
  {
    assert |pn| == |a|;
    LeftDigits(a, pn, i, k, s, lo, hi);
    var pn' := LeftPut(pn, lo, hi, i + k, s);
    assert Digits(pn') && |pn'| == |a|;
    hide Value, BPow, Pow2, Or, LeftPut;
    ValueBound(pn');
    LeftTotal(a, i, k, s, shift, lo, hi);
    LeftMod(Value(pn), Value(pn'), Value(a[..i]) * Pow2(shift), lo, hi, i + k, |a|);
  }

  /** x * 2^s is lo + BASE * hi, and their bits do not overlap those next to them. */
  ghost predicate HalvesOf(x: nat, s: nat, lo: nat, hi: nat) {
    x * Pow2(s) == lo + BASE * hi && lo < BASE && lo % Pow2(s) == 0 && hi < Pow2(s) <= BASE && (s == 0 ==> hi == 0)
  }

  lemma {:induction false} Halves(x: nat, s: nat, lo: nat, hi: nat)
    requires x < BASE && s < 32 && lo == x * Pow2(s) % BASE && hi == x / Pow2(32 - s)
    ensures HalvesOf(x, s, lo, hi)
  {
    SmallPowers();
    SplitShift(x, s);
    Pow2Order(s, 32);
    BaseIsPow2();
    var n := x * Pow2(s);
    DigitAndCarry(n);
    hide Pow2;
    assert n / BASE == x / Pow2(32 - s);
  }

  lemma {:induction false} DigitAndCarry(n: nat)
    ensures n == n % BASE + BASE * (n / BASE) && n % BASE < BASE
  {
  }

  lemma {:induction false} LeftMod(v: nat, v': nat, total: nat, lo: nat, hi: nat, e: nat, w: nat)
    requires v == total % BPow(w) && v' < BPow(w)
    requires v' == v + (if e < w then lo * BPow(e) else 0) + if e + 1 < w then hi * BPow(e + 1) else 0
    ensures v' == (total + lo * BPow(e) + hi * BPow(e + 1)) % BPow(w)
  {
    hide BPow;
    if e + 1 < w {
      SameMod(v, v', total, lo * BPow(e) + hi * BPow(e + 1), 0, BPow(w));
    } else if e < w {
      BeyondWidth(w, e + 1, hi);
      SameMod(v, v', total, lo * BPow(e), hi * BPow(e + 1 - w), BPow(w));
    } else {
      BeyondWidth(w, e, lo);
      BeyondWidth(w, e + 1, hi);
      var x, y := lo * BPow(e - w), hi * BPow(e + 1 - w);
      assert x * BPow(w) + y * BPow(w) == (x + y) * BPow(w);
      SameMod(v, v', total, 0, x + y, BPow(w));
    }
  }

  lemma {:induction false} LeftTotal(a: seq<nat>, i: nat, k: nat, s: nat, shift: nat, lo: nat, hi: nat)
    requires i < |a| && shift == 32 * k + s && a[i] * Pow2(s) == lo + BASE * hi
    ensures Value(a[..i + 1]) * Pow2(shift) == Value(a[..i]) * Pow2(shift) + lo * BPow(i + k) + hi * BPow(i + k + 1)
  {
    hide Value, Pow2;
    assert BPow(i + k + 1) == BASE * BPow(i + k);
    hide BPow;
    ValueSnoc(a, i);
    BPowIsPow2(k);
    Pow2Add(32 * k, s);
    BPowAdd(i, k);
    LeftTerms(Value(a[..i]), a[i], BPow(i), BPow(k), Pow2(s), BPow(i + k), lo, hi);
  }

  lemma {:induction false} LeftTerms(v: nat, x: nat, p: nat, q: nat, s: nat, pq: nat, lo: nat, hi: nat)
    requires x * s == lo + BASE * hi && pq == p * q
    ensures (v + x * p) * (q * s) == v * (q * s) + lo * pq + hi * (BASE * pq)
  {
    assert (v + x * p) * (q * s) == v * (q * s) + x * p * (q * s);
    FourFactors(x, p, q, s);
    LinearTerms(lo, hi, pq);
  }

  lemma {:induction false} FourFactors(x: nat, p: nat, q: nat, s: nat)
    ensures x * p * (q * s) == x * s * (p * q)
  {
    Reorder(x, p, s, q);
    assert q * s == s * q;
  }

  lemma {:induction false} LinearTerms(lo: nat, hi: nat, w: nat)
    ensures (lo + BASE * hi) * w == lo * w + hi * (BASE * w)
  {
  }

  lemma {:induction false} LeftDigits(a: seq<nat>, pn: seq<nat>, i: nat, k: nat, s: nat, lo: nat, hi: nat)
    requires Digits(a) && i < |a| && ShiftedLeft(a, pn, i, k, s)
    requires HalvesOf(a[i], s, lo, hi)
    ensures ShiftedLeft(a, LeftPut(pn, lo, hi, i + k, s), i + 1, k, s)
    ensures Value(LeftPut(pn, lo, hi, i + k, s)) == Value(pn) + (if i + k < |a| then lo * BPow(i + k) else 0)
              + if i + k + 1 < |a| then hi * BPow(i + k + 1) else 0
  {
    hide Value, BPow, Pow2, Or;
    var e, w := i + k, |a|;
    var one := if e + 1 < w && s != 0 then pn[e + 1 := Or(pn[e + 1], hi)] else pn;
    if e + 1 < w {
      OrZero(hi);
      if s != 0 { ValueUpdate(pn, e + 1, hi); }
    }
    if e < w {
      OrDisjoint(lo, one[e], s);
      SumFits(lo, one[e], s);
      ValueUpdate(one, e, lo + one[e]);
    }
  }

  lemma {:induction false} OrZero(b: nat)
    ensures Or(0, b) == b
  {
  }

  /** A multiple of 2^s and a number below 2^s make a digit. */
  lemma {:induction false} SumFits(lo: nat, d: nat, s: nat)
    requires s <= 32 && lo < BASE && lo % Pow2(s) == 0 && d < Pow2(s)
    ensures lo + d < BASE
  {
    BaseIsPow2();
    Pow2Add(32 - s, s);
    hide Pow2;
    NextMultiple(lo, Pow2(s), Pow2(32 - s), BASE);
  }

  lemma {:induction false} NextMultiple(lo: nat, p: nat, q: nat, m: nat)
    requires p > 0 && m == q * p && lo < m && lo % p == 0
    ensures lo + p <= m
  {
    var h := lo / p;
    assert lo == p * h;
    if h >= q { MulMono(p, q, h); }
    MulMono(p, h + 1, q);
    assert p * (h + 1) == lo + p;
  }

  /** x / 2^s, and the bits that move into the digit below. */
  ghost predicate RightHalves(x: nat, s: nat, up: nat, down: nat)
    requires s < 32
  {
    && x == Pow2(s) * down + x % Pow2(s) && Pow2(s) * up == x % Pow2(s) * BASE
    && up < BASE && up % Pow2(32 - s) == 0 && down < Pow2(32 - s) <= BASE && (s == 0 ==> up == 0)
  }

  lemma {:induction false} RightSplit(x: nat, s: nat, up: nat, down: nat)
    requires x < BASE && s < 32 && up == x * Pow2(32 - s) % BASE && down == x / Pow2(s)
    ensures RightHalves(x, s, up, down)
  {
    SmallPowers();
    BaseIsPow2();
    Pow2Add(32 - s, s);
    Pow2Order(32 - s, 32);
    hide Pow2;
    RightArithmetic(x, Pow2(s), Pow2(32 - s), BASE, up, down);
  }

  lemma {:induction false} RightArithmetic(x: nat, p: nat, q: nat, m: nat, up: nat, down: nat)
    requires p > 0 && q > 0 && m == q * p && x < m && up == x * q % m && down == x / p
    ensures x == p * down + x % p && p * up == x % p * m && up < m && up % q == 0 && down < q && (p == 1 ==> up == 0)
  {
    var r := x % p;
    assert x == p * down + r;
    SplitTerms(p, down, r, q);
    assert p * q == m;
    MulMono(q, r + 1, p);
    assert q * (r + 1) == r * q + q && q * p == m;
    DivUnique(x * q, m, down, r * q);
    DivUnique(r * q, q, r, 0);
    assert p * (r * q) == r * (q * p);
    if down >= q { MulMono(p, q, down); }
  }

  method ShiftRight(a: seq<nat>, shift: nat) returns (pn: seq<nat>)
    requires Digits(a)
    ensures |pn| == |a| && Digits(pn) && Value(pn) == Value(a) / Pow2(shift)
  {
    hide Value, BPow, Pow2, Or, RightHalves, RightPut;
    var w, k, s := |a|, shift / 32, shift % 32;
    pn := seq(w, _ => 0);
    RightStart(a, pn, k, s);
    for i := 0 to w
      invariant ShiftedRight(a, pn, i, k, s)
    {
      ghost var before := pn;
      var up, down := a[i] * Pow2(32 - s) % BASE, a[i] / Pow2(s);
      RightSplit(a[i], s, up, down);
      RightStep(a, pn, i, k, s, up, down);
      if i >= k + 1 && s != 0 { pn := pn[i - k - 1 := Or(pn[i - k - 1], up)]; }
      if i >= k { pn := pn[i - k := Or(pn[i - k], down)]; }
      RightPutIs(before, pn, up, down, i, k, s);
    }
    RightEnd(a, pn, k, s, shift);
  }

  function RightPut(pn: seq<nat>, up: nat, down: nat, i: nat, k: nat, s: nat): seq<nat>
    requires i < |pn|
  {
    var one := if i >= k + 1 && s != 0 then pn[i - k - 1 := Or(pn[i - k - 1], up)] else pn;
    if i >= k then one[i - k := Or(one[i - k], down)] else one
  }

  lemma {:induction false} RightPutIs(before: seq<nat>, pn: seq<nat>, up: nat, down: nat, i: nat, k: nat, s: nat)
    requires i < |before|
    requires var one := if i >= k + 1 && s != 0 then before[i - k - 1 := Or(before[i - k - 1], up)] else before;
             pn == if i >= k then one[i - k := Or(one[i - k], down)] else one
    ensures pn == RightPut(before, up, down, i, k, s)
  {
  }

  /** After `i` digits: the result so far, times 2^s, is the number above digit k seen so far, but
      for its lowest bits. */
  ghost predicate ShiftedRight(a: seq<nat>, pn: seq<nat>, i: nat, k: nat, s: nat) {
    && |pn| == |a| && Digits(pn) && s < 32 && i <= |a|
    && (forall j {:trigger pn[j]} :: 0 <= j < |pn| && j + k >= i ==> pn[j] == 0)
    && if i <= k then Value(pn) == 0
        else pn[i - k - 1] < Pow2(32 - s) && Pow2(s) * Value(pn) + a[k] % Pow2(s) == Value(a[k..i])
  }

  lemma {:induction false} RightStart(a: seq<nat>, pn: seq<nat>, k: nat, s: nat)
    requires |pn| == |a| && (forall j {:trigger pn[j]} :: 0 <= j < |pn| ==> pn[j] == 0) && s < 32
    ensures ShiftedRight(a, pn, 0, k, s)
  {
    ValueZeros(pn);
  }

  lemma {:induction false} RightStep(a: seq<nat>, pn: seq<nat>, i: nat, k: nat, s: nat, up: nat, down: nat)
    requires Digits(a) && i < |a| && ShiftedRight(a, pn, i, k, s) && RightHalves(a[i], s, up, down)
    ensures ShiftedRight(a, RightPut(pn, up, down, i, k, s), i + 1, k, s)
  {
    hide Value, BPow, Pow2, Or;
    if i == k {
      OrZero(down);
      ValueUpdate(pn, 0, down);
      OneDigit(a, k);
      assert Pow2(s) * (down * 1) == Pow2(s) * down;
    } else if i > k {
      RightDigits(a, pn, i, k, s, up, down);
      RightTotal(a, Value(pn), i, k, s, up, down);
    }
  }

  lemma {:induction false} OneDigit(a: seq<nat>, k: nat)
    requires k < |a|
    ensures Value(a[k..k + 1]) == a[k] && BPow(0) == 1
  {
    assert a[k..k + 1] == [a[k]];
  }

  lemma {:induction false} RightDigits(a: seq<nat>, pn: seq<nat>, i: nat, k: nat, s: nat, up: nat, down: nat)
    requires Digits(a) && k < i < |a| && ShiftedRight(a, pn, i, k, s) && RightHalves(a[i], s, up, down)
    ensures var pn' := RightPut(pn, up, down, i, k, s);
            && |pn'| == |pn| && Digits(pn')
                && (forall j {:trigger pn'[j]} :: 0 <= j < |pn'| && j + k >= i + 1 ==> pn'[j] == 0)
                && pn'[i - k] == down
            && Value(pn') == Value(pn) + up * BPow(i - k - 1) + down * BPow(i - k)
  {
    var m := i - k;
    assert up < BASE && up % Pow2(32 - s) == 0 && down < BASE && (s == 0 ==> up == 0);
    assert Digits(pn) && m < |pn| && pn[m] == 0 && pn[m - 1] < Pow2(32 - s) && s < 32;
    hide Value, BPow, Pow2, Or, RightHalves;
    var one := if s != 0 then pn[m - 1 := Or(pn[m - 1], up)] else pn;
    MergeUp(pn, m - 1, up, s);
    OrZero(down);
    RaiseDigit(one, m, down);
  }

  lemma {:induction false} RaiseDigit(pn: seq<nat>, j: nat, x: nat)
    requires j < |pn|
    ensures Value(pn[j := pn[j] + x]) == Value(pn) + x * BPow(j)
  {
    hide Value, BPow;
    ValueUpdate(pn, j, pn[j] + x);
  }

  /** The bits carried down from the digit above, merged into a digit that leaves room for them. */
  lemma {:induction false} MergeUp(pn: seq<nat>, j: nat, up: nat, s: nat)
    requires Digits(pn) && j < |pn| && s < 32 && up < BASE && up % Pow2(32 - s) == 0 && pn[j] < Pow2(32 - s)
    requires (s == 0 ==> up == 0)
    ensures var one := if s != 0 then pn[j := Or(pn[j], up)] else pn;
            Digits(one) && Value(one) == Value(pn) + up * BPow(j)
  {
    hide Value, BPow, Pow2, Or;
    if s != 0 {
      OrDisjoint(up, pn[j], 32 - s);
      SumFits(up, pn[j], 32 - s);
      RaiseDigit(pn, j, up);
    }
  }

  lemma {:induction false} RightTotal(a: seq<nat>, v: nat, i: nat, k: nat, s: nat, up: nat, down: nat)
    requires k < i < |a| && s < 32 && RightHalves(a[i], s, up, down) && Pow2(s) * v + a[k] % Pow2(s) == Value(a[k..i])
    ensures Pow2(s) * (v + up * BPow(i - k - 1) + down * BPow(i - k)) + a[k] % Pow2(s) == Value(a[k..i + 1])
  {
    hide Value, Pow2;
    var m := i - k;
    assert BPow(m) == BASE * BPow(m - 1);
    hide BPow;
    ValueSnoc(a[k..], m);
    assert a[k..][..m] == a[k..i] && a[k..][..m + 1] == a[k..i + 1] && a[k..][m] == a[i];
    RightTerms(Pow2(s), v, up, down, BPow(m - 1), BPow(m), a[i], a[i] % Pow2(s));
  }

  lemma {:induction false} RightTerms(p: nat, v: nat, up: nat, down: nat, b: nat, c: nat, x: nat, r: nat)
    requires c == BASE * b && x == p * down + r && p * up == r * BASE
    ensures p * (v + up * b + down * c) == p * v + x * c
  {
    assert p * (v + up * b + down * c) == p * v + p * up * b + p * down * c;
    assert r * BASE * b == r * c;
    assert x * c == p * down * c + r * c;
  }

  lemma {:induction false} RightEnd(a: seq<nat>, pn: seq<nat>, k: nat, s: nat, shift: nat)
    requires Digits(a) && ShiftedRight(a, pn, |a|, k, s) && shift == 32 * k + s
    ensures Value(pn) == Value(a) / Pow2(shift)
  {
    hide Value, BPow, Pow2;
    BPowIsPow2(k);
    Pow2Add(32 * k, s);
    ValueBound(a);
    if k < |a| {
      assert a == a[..k] + a[k..] && a[k..|a|] == a[k..];
      ValueConcat(a[..k], a[k..]);
      ValueBound(a[..k]);
      DivUnique(Value(a), BPow(k), Value(a[k..]), Value(a[..k]));
      DivUnique(Value(a[k..]), Pow2(s), Value(pn), a[k] % Pow2(s));
      DivOfProduct(Value(a), BPow(k), Pow2(s));
    } else {
      BPowIsPow2(|a|);
      Pow2Order(32 * |a|, shift);
      DivUnique(Value(a), Pow2(shift), 0, Value(a));
    }
  }

  // ---- Division ----

  /** The lowest `n` bits are zero. */
  ghost predicate LowZero(q: seq<nat>, n: nat) {
    && (forall j {:trigger q[j]} :: 0 <= j < n / 32 && j < |q| ==> q[j] == 0)
    && (n / 32 < |q| ==> q[n / 32] % Pow2(n % 32) == 0)
  }

  lemma {:induction false} LowZeroLess(q: seq<nat>, n: nat)
    requires LowZero(q, n + 1) && n / 32 < |q|
    ensures LowZero(q, n) && q[n / 32] % Pow2(n % 32 + 1) == 0
  {
    var l, t := n / 32, n % 32;
    if t == 31 {
      assert (n + 1) / 32 == l + 1;
      assert q[l] == 0;
    } else {
      assert (n + 1) / 32 == l && (n + 1) % 32 == t + 1;
    }
    MultipleOfHalf(q[l], Pow2(t));
  }

  lemma {:induction false} MultipleOfHalf(x: nat, p: nat)
    requires p > 0 && x % (2 * p) == 0
    ensures x % p == 0
  {
    var h := x / (2 * p);
    assert x == 2 * p * h == p * (2 * h);
    DivUnique(x, p, 2 * h, 0);
  }

  /** Setting bit n of a number whose lower bits, and bit n, are zero. */
  lemma {:induction false} SetBit(q: seq<nat>, n: nat, q': seq<nat>)
    requires Digits(q) && LowZero(q, n + 1) && n / 32 < |q| && q' == q[n / 32 := Or(q[n / 32], Pow2(n % 32))]
    ensures Digits(q') && LowZero(q', n) && Value(q') == Value(q) + Pow2(n)
  {
    var l, t := n / 32, n % 32;
    LowZeroLess(q, n);
    assert Pow2(t + 1) == 2 * Pow2(t);
    hide Value, BPow, Pow2, Or;
    OrDisjoint(q[l], Pow2(t), t + 1);
    BitFits(q[l], t);
    ValueUpdate(q, l, q[l] + Pow2(t));
    BPowIsPow2(l);
    Pow2Add(t, 32 * l);
    ModOfSum(q[l], 1, Pow2(t));
  }

  lemma {:induction false} BitFits(x: nat, t: nat)
    requires x < BASE && t < 32 && x % Pow2(t + 1) == 0
    ensures x + Pow2(t) < BASE
  {
    assert Pow2(t + 1) == 2 * Pow2(t);
    hide Pow2;
    SumFits(x, Pow2(t), t + 1);
  }

  /** What holds before the bit `shift` of the quotient is decided. */
  ghost predicate Dividing(a: nat, b: nat, num: nat, div: nat, q: nat, shift: int) {
    && shift >= -1 && num + q * b == a && num < b * Pow2(shift + 1) && (shift >= 0 ==> div == b * Pow2(shift))
  }

  lemma {:induction false} DivideStep(a: nat, b: nat, num: nat, div: nat, q: nat, shift: nat)
    requires Dividing(a, b, num, div, q, shift)
    ensures num >= div ==> Dividing(a, b, num - div, div / 2, q + Pow2(shift), shift - 1)
    ensures num < div ==> Dividing(a, b, num, div / 2, q, shift - 1)
  {
    assert Pow2(shift + 1) == 2 * Pow2(shift);
    assert b * Pow2(shift + 1) == 2 * (b * Pow2(shift));
    if shift > 0 {
      assert Pow2(shift) == 2 * Pow2(shift - 1);
      assert b * Pow2(shift) == 2 * (b * Pow2(shift - 1));
    }
    assert (q + Pow2(shift)) * b == q * b + b * Pow2(shift);
  }

  lemma {:induction false} DivideEnd(a: nat, b: nat, num: nat, div: nat, q: nat)
    requires b > 0 && Dividing(a, b, num, div, q, -1)
    ensures q == a / b
  {
    assert Pow2(0) == 1;
    assert q * b == b * q;
    DivUnique(a, b, q, num);
  }

  /** Floor division. Not `ok` stands for the exception on a zero divisor. */
  method Divide(a: seq<nat>, b: seq<nat>) returns (ok: bool, q: seq<nat>)
    requires |a| == |b| && Digits(a) && Digits(b)
    ensures ok <==> Value(b) != 0
    ensures |q| == |a| && Digits(q) && (ok ==> Value(q) == Value(a) / Value(b))
  {
    hide Value, BPow, Pow2, Or, LowZero, BitLength, Dividing;
    q := seq(|a|, _ => 0);
    ValueZeros(q);
    var num := a;
    var numBits := Bits(num);
    var divBits := Bits(b);
    LengthZero(Value(b), divBits);
    if divBits == 0 { return false, q; }
    ok := true;
    if divBits > numBits {
      LessBits(Value(a), numBits, Value(b), divBits);
      return;
    }
    var shift: int := numBits - divBits;
    var div := ShiftLeft(b, shift);
    StartDividing(a, b, numBits, divBits, Value(div));
    AllZero(q, shift + 1);
    while shift >= 0
      invariant -1 <= shift < 32 * |a| && |num| == |div| == |q| == |a| && Digits(num) && Digits(div)
      invariant Digits(q) && LowZero(q, shift + 1)
      invariant Dividing(Value(a), Value(b), Value(num), Value(div), Value(q), shift)
      decreases shift + 1
    {
      DivideStep(Value(a), Value(b), Value(num), Value(div), Value(q), shift);
      LowZeroLess(q, shift);
      var c := CompareTo(num, div);
      if c >= 0 {
        ValueBound(num);
        ExactMod(Value(num), Value(div), BPow(|a|));
        num := Subtract(num, div);
        ghost var before := q;
        q := q[shift / 32 := Or(q[shift / 32], Pow2(shift % 32))];
        SetBit(before, shift, q);
      }
      div := ShiftRight(div, 1);
      SmallPowers();
      shift := shift - 1;
    }
    DivideEnd(Value(a), Value(b), Value(num), Value(div), Value(q));
  }

  lemma {:induction false} ExactMod(x: nat, y: nat, m: nat)
    requires y <= x < m
    ensures (x - y) % m == x - y
  {
  }

  lemma {:induction false} LengthZero(v: nat, r: nat)
    requires BitLength(v, r)
    ensures r == 0 <==> v == 0
  {
  }

  lemma {:induction false} LessBits(x: nat, r: nat, y: nat, s: nat)
    requires BitLength(x, r) && BitLength(y, s) && r < s
    ensures y > 0 && x / y == 0
  {
    if x > 0 { Pow2Order(r, s - 1); }
    DivUnique(x, y, 0, x);
  }

  lemma {:induction false} AllZero(q: seq<nat>, n: nat)
    requires forall j {:trigger q[j]} :: 0 <= j < |q| ==> q[j] == 0
    ensures LowZero(q, n)
  {
    hide Pow2;
    ZeroMod(Pow2(n % 32));
  }

  /** Aligning the divisor with the number loses none of its bits. */
  lemma {:induction false} StartDividing(a: seq<nat>, b: seq<nat>, n: nat, d: nat, div: nat)
    requires BitLength(Value(a), n) && BitLength(Value(b), d) && 0 < d <= n <= 32 * |a| && |a| == |b|
    requires div == Value(b) * Pow2(n - d) % BPow(|a|)
    ensures Dividing(Value(a), Value(b), Value(a), div, 0, n - d)
  {
    hide Value, BPow;
    var x, y, s := Value(a), Value(b), n - d;
    Pow2Add(d, s);
    Pow2Add(d - 1, s + 1);
    BPowIsPow2(|a|);
    Pow2Order(n, 32 * |a|);
    hide Pow2;
    Aligned(x, y, Pow2(n), Pow2(d), Pow2(s), Pow2(d - 1), Pow2(s + 1), BPow(|a|));
  }

  lemma {:induction false} Aligned(x: nat, y: nat, pn: nat, pd: nat, ps: nat, pd1: nat, ps1: nat, m: nat)
    requires pn == pd * ps == pd1 * ps1 && pn <= m && pd1 <= y < pd && x < pn && ps > 0
    ensures y * ps % m == y * ps && x < y * ps1
  {
    MulMono(ps, y + 1, pd);
    assert ps * (y + 1) == y * ps + ps && ps * pd == pn;
    ExactMod(y * ps, 0, m);
    MulMono(ps1, pd1, y);
    assert ps1 * pd1 == pn && ps1 * y == y * ps1;
  }
}
