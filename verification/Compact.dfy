/** The compact form of targets, and the work of a target (src/arith_uint256.cpp, SetCompact and
    GetCompact; src/chain.cpp, GetBlockProof). */
module Compacts {
  import opened Powers
  import opened ArithUints

  const WIDTH := 8

  // ---- Decoding ----

  /** The number a compact form stands for, sign aside, without a bound on its size. */
  function Decoded(c: nat): nat {
    var size, word := c / 0x1000000, c % 0x800000;
    if size <= 3 then Quotient(word, Pow2(8 * (3 - size))) else word * Pow2(8 * (size - 3))
  }

  function Quotient(x: nat, d: nat): nat
    requires d > 0
  {
    x / d
  }

  lemma {:induction false} Constants()
    ensures Pow2(8) == 0x100 && Pow2(16) == 0x10000 && Pow2(24) == 0x1000000 && Pow2(23) == 0x800000 && Pow2(32) == BASE
  {
    BaseIsPow2();
    assert Pow2(24) == 2 * Pow2(23);
  }

  /** The value of a number that fits the lowest digit. */
  lemma {:induction false} SmallValue(x: nat)
    ensures Value([x, 0, 0, 0, 0, 0, 0, 0]) == x
  {
    assert [x, 0, 0, 0, 0, 0, 0, 0] == [x] + [0, 0, 0, 0, 0, 0, 0];
    ValueConcat([x], [0, 0, 0, 0, 0, 0, 0]);
    ValueZeros([0, 0, 0, 0, 0, 0, 0]);
    assert Value([x]) == x;
  }

  /** The overflow flag: exactly the numbers of more than 256 bits. */
  lemma {:induction false} OverflowExact(word: nat, size: nat)
    requires word < 0x800000 && size > 3
    ensures (word != 0 && (size > 34 || (word > 0xff && size > 33) || (word > 0xffff && size > 32))) <==>
            word * Pow2(8 * (size - 3)) >= Pow2(256)
  {
    Constants();
    var p := Pow2(8 * (size - 3));
    Pow2Add(8, 248);
    Pow2Add(16, 240);
    Pow2Add(24, 232);
    Pow2Order(8 * (size - 3), 256);
    Pow2Order(8 * (size - 3), 248);
    Pow2Order(8 * (size - 3), 240);
    Pow2Order(8 * (size - 3), 232);
    hide Pow2;
    if word == 0 {
      assert word * p == 0;
    } else if size > 34 {
      MulMono(p, 1, word);
    } else if word > 0xff && size > 33 {
      MulMono(p, 0x100, word);
    } else if word > 0xffff && size > 32 {
      MulMono(p, 0x10000, word);
    } else if word <= 0xff {
      MulMono(p, word, 0xff);
    } else if word <= 0xffff {
      MulMono(p, word, 0xffff);
    } else {
      MulMono(p, word, 0xffffff);
    }
  }

  /** Set from the compact form. The value is what the form stands for, reduced to 256 bits;
      `overflow` tells whether that loses anything. */
  method SetCompact(c: nat) returns (pn: seq<nat>, negative: bool, overflow: bool)
    requires c < BASE
    ensures |pn| == WIDTH && Digits(pn) && Value(pn) == Decoded(c) % Pow2(256)
    ensures overflow <==> Decoded(c) >= Pow2(256)
    ensures negative <==> Decoded(c) != 0 && c / 0x800000 % 2 == 1
  {
    hide Value, Pow2, BPow;
    var size, word := c / 0x1000000, c % 0x800000;
    BPowIsPow2(WIDTH);
    if size <= 3 {
      var small := word / Pow2(8 * (3 - size));
      DivSmaller(word, Pow2(8 * (3 - size)));
      pn := [small, 0, 0, 0, 0, 0, 0, 0];
      SmallValue(small);
      Pow2Order(32, 256);
      Constants();
      ExactMod(small, 0, Pow2(256));
      negative := small != 0 && c / 0x800000 % 2 == 1;
      overflow := small != 0 && (size > 34 || (small > 0xff && size > 33) || (small > 0xffff && size > 32));
    } else {
      pn := [word, 0, 0, 0, 0, 0, 0, 0];
      SmallValue(word);
      pn := ShiftLeft(pn, 8 * (size - 3));
      OverflowExact(word, size);
      NotZero(word, Pow2(8 * (size - 3)));
      negative := word != 0 && c / 0x800000 % 2 == 1;
      overflow := word != 0 && (size > 34 || (word > 0xff && size > 33) || (word > 0xffff && size > 32));
    }
  }

  lemma {:induction false} DivSmaller(x: nat, d: nat)
    requires d > 0
    ensures 0 <= x / d <= x
  {
    MulMono(x / d, 1, d);
  }

  lemma {:induction false} NotZero(x: nat, y: nat)
    requires y > 0
    ensures x * y != 0 <==> x != 0
  {
  }

  // ---- The work of a target ----

  lemma {:induction false} ProofFormula(t: nat, m: nat)
    requires 0 < t && t + 1 < m
    ensures (m - 1 - t) / (t + 1) + 1 == m / (t + 1) && m / (t + 1) < m
  {
    var d := t + 1;
    var q, r := (m - d) / d, (m - d) % d;
    assert m - d == d * q + r;
    assert d * (q + 1) == d * q + d;
    DivUnique(m, d, q + 1, r);
    MulMono(q + 1, 2, d);
  }

  /** A target is never the largest 256-bit number, so adding one to it does not wrap. */
  lemma {:induction false} NotLargest(c: nat)
    requires c < BASE && Decoded(c) < Pow2(256)
    ensures Decoded(c) + 1 < Pow2(256)
  {
    Constants();
    Pow2Order(32, 256);
    var size, word := c / 0x1000000, c % 0x800000;
    if size <= 3 {
      DivSmaller(word, Pow2(8 * (3 - size)));
    } else {
      Pow2Add(8, 248);
      Pow2Add(8, 8 * (size - 4));
      assert 8 * (size - 3) == 8 + 8 * (size - 4);
      hide Pow2;
      EvenProduct(word, Pow2(8 * (size - 4)), Pow2(248));
    }
  }

  lemma {:induction false} EvenProduct(w: nat, x: nat, y: nat)
    requires w * (0x100 * x) < 0x100 * y
    ensures w * (0x100 * x) + 1 < 0x100 * y
  {
    assert w * (0x100 * x) == 0x100 * (w * x);
  }

  /** The expected number of hashes for a target: 2^256 / (target + 1). */
  method GetBlockProof(bits: nat) returns (work: seq<nat>)
    requires bits < BASE
    ensures |work| == WIDTH && Digits(work)
    ensures Value(work) == var t := Decoded(bits);
            if t == 0 || t >= Pow2(256) || bits / 0x800000 % 2 == 1 then 0 else Pow2(256) / (t + 1)
  {
    hide Value, Pow2, BPow, Decoded;
    var target, negative, overflow := SetCompact(bits);
    var zero := [0, 0, 0, 0, 0, 0, 0, 0];
    SmallValue(0);
    BPowIsPow2(WIDTH);
    var c := CompareTo(target, zero);
    if overflow { return zero; }
    ExactMod(Decoded(bits), 0, Pow2(256));
    if negative || c == 0 { return zero; }
    NotLargest(bits);
    ghost var t := Decoded(bits);
    ExactMod(t + 1, 0, Pow2(256));
    ProofFormula(t, Pow2(256));
    var one := [1, 0, 0, 0, 0, 0, 0, 0];
    SmallValue(1);
    var inverted := Not(target);
    var next := Add(target, one);
    var ok, quotient := Divide(inverted, next);
    work := Add(quotient, one);
    ExactMod(Value(quotient) + 1, 0, Pow2(256));
  }

  // ---- Encoding ----

  function ByteLength(v: nat): nat {
    if v == 0 then 0 else 1 + ByteLength(v / 256)
  }

  /** The three leading bytes, counting the first that is not zero as the first of `n`. */
  function Mantissa(v: nat, n: nat): nat {
    if n <= 3 then v * Pow2(8 * (3 - n)) else Quotient(v, Pow2(8 * (n - 3)))
  }

  /** The compact form: size byte, then mantissa, of which the highest bit is the sign. */
  function CompactOf(v: nat, negative: bool): nat {
    var n := ByteLength(v);
    var m := Mantissa(v, n);
    var size, word := if m >= 0x800000 then n + 1 else n, if m >= 0x800000 then m / 256 else m;
    word + size * 0x1000000 + if negative && word != 0 then 0x800000 else 0
  }

  lemma {:induction false} ByteBounds(v: nat)
    ensures v > 0 ==> ByteLength(v) > 0 && Pow2(8 * (ByteLength(v) - 1)) <= v
    ensures v < Pow2(8 * ByteLength(v))
  {
    if v > 0 {
      ByteBounds(v / 256);
      var n := ByteLength(v);
      Constants();
      Pow2Add(8, 8 * (n - 1));
      if v / 256 > 0 { Pow2Add(8, 8 * (n - 2)); }
      hide Pow2;
      assert v == 256 * (v / 256) + v % 256;
    }
  }

  lemma {:induction false} ByteLengthUnique(v: nat, n: nat)
    requires n > 0 && Pow2(8 * (n - 1)) <= v < Pow2(8 * n)
    ensures ByteLength(v) == n
  {
    ByteBounds(v);
    var k := ByteLength(v);
    if k < n { Pow2Order(8 * k, 8 * (n - 1)); }
    if k > n { Pow2Order(8 * n, 8 * (k - 1)); }
  }

  lemma {:induction false} BytesOfBits(v: nat, r: nat)
    requires BitLength(v, r)
    ensures ByteLength(v) == (r + 7) / 8
  {
    if v > 0 {
      var n := (r + 7) / 8;
      Pow2Order(8 * (n - 1), r - 1);
      Pow2Order(r, 8 * n);
      ByteLengthUnique(v, n);
    }
  }

  lemma {:induction false} MantissaBounds(v: nat)
    requires v > 0
    ensures 0x10000 <= Mantissa(v, ByteLength(v)) < 0x1000000
  {
    var n := ByteLength(v);
    ByteBounds(v);
    Constants();
    if n <= 3 {
      Pow2Add(8 * n, 8 * (3 - n));
      Pow2Add(8 * (n - 1), 8 * (3 - n));
      hide Pow2;
      MantissaSmall(v, Pow2(8 * (3 - n)), Pow2(8 * (n - 1)), Pow2(8 * n));
    } else {
      Pow2Add(24, 8 * (n - 3));
      Pow2Add(16, 8 * (n - 3));
      hide Pow2;
      MantissaLarge(v, Pow2(8 * (n - 3)));
    }
  }

  lemma {:induction false} MantissaSmall(v: nat, p: nat, low: nat, high: nat)
    requires p > 0 && low * p == 0x10000 && high * p == 0x1000000 && low <= v < high
    ensures 0x10000 <= v * p < 0x1000000
  {
    MulMono(p, low, v);
    MulMono(p, v + 1, high);
    assert p * (v + 1) == v * p + p;
  }

  lemma {:induction false} MantissaLarge(v: nat, p: nat)
    requires p > 0 && 0x10000 * p <= v < 0x1000000 * p
    ensures 0x10000 <= Quotient(v, p) < 0x1000000
  {
    var q, r := v / p, v % p;
    assert v == p * q + r && p * (q + 1) == p * q + p;
    if q < 0x10000 { MulMono(p, q + 1, 0x10000); }
    if q >= 0x1000000 { MulMono(p, 0x1000000, q); }
  }

  lemma {:induction false} LowDigits(a: seq<nat>)
    requires |a| == WIDTH && Value(a) < BASE
    ensures a[0] + a[1] * BASE == Value(a)
  {
    assert a == [a[0]] + a[1..];
    ValueConcat([a[0]], a[1..]);
    assert Value([a[0]]) == a[0] && BPow(1) == BASE;
    assert a[1..] == [a[1]] + a[2..];
    ValueConcat([a[1]], a[2..]);
    assert Value([a[1]]) == a[1];
    hide Value, BPow;
    assert a[1] + BASE * Value(a[2..]) == 0 by { if a[1] + BASE * Value(a[2..]) > 0 { assert false; } }
  }

  /** The compact form of a number. */
  method GetCompact(a: seq<nat>, negative: bool) returns (c: nat)
    requires |a| == WIDTH && Digits(a)
    ensures c == CompactOf(Value(a), negative) && c < BASE
  {
    hide Value, Pow2, Or, BPow, BitLength, ByteLength, Mantissa;
    var bits := Bits(a);
    BytesOfBits(Value(a), bits);
    var size := (bits + 7) / 8;
    var word := GetMantissa(a, size);
    Constants();
    TopBit(word, 23);
    if BitAt(word, 23) {
      word := word / 256;
      size := size + 1;
    }
    Join(size, word);
    c := Or(word, size * 0x1000000);
    if negative && c % 0x800000 != 0 {
      JoinSign(size, word);
      c := Or(c, 0x800000);
    }
  }

  method GetMantissa(a: seq<nat>, size: nat) returns (word: nat)
    requires |a| == WIDTH && Digits(a) && size == ByteLength(Value(a)) && size <= 32
    ensures word == Mantissa(Value(a), size) && word < 0x1000000
  {
    hide Value, Pow2, BPow, ByteLength;
    ghost var v := Value(a);
    if v > 0 { MantissaBounds(v); }
    ByteBounds(v);
    Constants();
    if size <= 3 {
      Pow2Order(8 * size, 24);
      LowDigits(a);
      word := (a[0] + a[1] * BASE) * Pow2(8 * (3 - size));
      if v == 0 { assert word == 0; }
    } else {
      var bn := ShiftRight(a, 8 * (size - 3));
      QuotientIs(v, Pow2(8 * (size - 3)));
      NonZeroLength(v, size);
      LowDigits(bn);
      word := bn[0] + bn[1] * BASE;
    }
  }

  lemma {:induction false} QuotientIs(v: nat, d: nat)
    requires d > 0
    ensures Quotient(v, d) == v / d
  {
  }

  lemma {:induction false} NonZeroLength(v: nat, n: nat)
    requires n == ByteLength(v) && n > 0
    ensures v > 0
  {
  }

  lemma {:induction false} Join(size: nat, word: nat)
    requires word < 0x1000000
    ensures Or(word, size * 0x1000000) == word + size * 0x1000000
  {
    Constants();
    DivUnique(size * 0x1000000, 0x1000000, size, 0);
    OrDisjoint(size * 0x1000000, word, 24);
  }

  lemma {:induction false} JoinSign(size: nat, word: nat)
    requires word < 0x800000
    ensures Or(word + size * 0x1000000, 0x800000) == word + size * 0x1000000 + 0x800000
  {
    Constants();
    var hi := size * 0x1000000;
    DivUnique(hi, 0x800000, 2 * size, 0);
    DivUnique(hi, 0x1000000, size, 0);
    OrSplit(word, hi, 0x800000, 23);
    OrDisjoint(hi, 0x800000, 24);
  }

  lemma {:induction false} OrSplit(w: nat, hi: nat, b: nat, k: nat)
    requires w < Pow2(k) && hi % Pow2(k) == 0 && b % Pow2(k) == 0
    ensures Or(hi + w, b) == w + Or(hi, b)
  {
    if k > 0 {
      HalfMultiple(hi, Pow2(k - 1));
      HalfMultiple(b, Pow2(k - 1));
      assert (hi + w) / 2 == hi / 2 + w / 2;
      OrSplit(w / 2, hi / 2, b / 2, k - 1);
    }
  }

  lemma {:induction false} HalfMultiple(x: nat, p: nat)
    requires p > 0 && x % (2 * p) == 0
    ensures x % 2 == 0 && x / 2 % p == 0
  {
    var h := x / (2 * p);
    assert x == 2 * p * h == 2 * (p * h);
    DivUnique(x / 2, p, h, 0);
  }

  // ---- Encoding what was decoded ----

  /** Three leading bytes followed by k zero bytes. */
  lemma {:induction false} PaddedLength(m: nat, k: nat)
    requires 0x10000 <= m < 0x1000000
    ensures ByteLength(m * Pow2(8 * k)) == 3 + k && Mantissa(m * Pow2(8 * k), 3 + k) == m
  {
    Constants();
    Pow2Add(16, 8 * k);
    Pow2Add(24, 8 * k);
    var p := Pow2(8 * k);
    MulMono(p, 0x10000, m);
    MulMono(p, m + 1, 0x1000000);
    assert p * (m + 1) == m * p + p && p * m == m * p;
    ByteLengthUnique(m * p, 3 + k);
    if k == 0 {
      assert p == 1 && Pow2(0) == 1;
    } else {
      DivUnique(m * p, p, m, 0);
    }
  }

  lemma {:induction false} DecodeJoined(size: nat, word: nat)
    requires word < 0x800000
    ensures Decoded(word + size * 0x1000000) == if size <= 3 then Quotient(word, Pow2(8 * (3 - size)))
            else word * Pow2(8 * (size - 3))
  {
    JoinedParts(size, word);
    hide Pow2, Quotient;
  }

  lemma {:induction false} JoinedParts(size: nat, word: nat)
    requires word < 0x800000
    ensures (word + size * 0x1000000) / 0x1000000 == size && (word + size * 0x1000000) % 0x800000 == word
  {
  }

  /** Decoding a compact form and encoding it again gives the same form: the number it stands for
      is the one encoded, cut to its leading bytes. */
  lemma {:induction false} CompactStable(v: nat)
    ensures var w := Decoded(CompactOf(v, false)); w <= v && CompactOf(w, false) == CompactOf(v, false)
  {
    var n := ByteLength(v);
    if v == 0 {
      DecodeJoined(0, 0);
      assert Mantissa(0, 0) == 0;
      DivUnique(0, Pow2(24), 0, 0);
    } else {
      MantissaBounds(v);
      var m := Mantissa(v, n);
      ByteBounds(v);
      if n <= 2 {
        StableShort(v, n, m);
      } else {
        StableLong(v, n, m);
      }
    }
  }

  lemma {:induction false} StableShort(v: nat, n: nat, m: nat)
    requires v > 0 && n == ByteLength(v) && n <= 2 && m == Mantissa(v, n) && 0x10000 <= m < 0x1000000
    ensures Decoded(CompactOf(v, false)) == v
  {
    hide ByteLength;
    var p := Pow2(8 * (3 - n));
    Constants();
    Pow2Add(8, 8 * (2 - n));
    if m >= 0x800000 {
      DecodeJoined(n + 1, m / 256);
      var q := Pow2(8 * (2 - n));
      assert m == v * (256 * q) == 256 * (v * q);
      DivUnique(v * q, q, v, 0);
    } else {
      DecodeJoined(n, m);
      DivUnique(v * p, p, v, 0);
    }
  }

  /** The mantissa as far as the compact form keeps it. */
  function Kept(m: nat): nat {
    if m >= 0x800000 then m / 256 * 256 else m
  }

  lemma {:induction false} DecodeLong(v: nat, n: nat, m: nat)
    requires n == ByteLength(v) && n >= 3 && m == Mantissa(v, n) && m < 0x1000000
    ensures Decoded(CompactOf(v, false)) == Kept(m) * Pow2(8 * (n - 3))
  {
    hide ByteLength, Mantissa, Decoded;
    Constants();
    assert Pow2(0) == 1;
    var p := Pow2(8 * (n - 3));
    Pow2Add(8, 8 * (n - 3));
    assert 8 * (n + 1 - 3) == 8 + 8 * (n - 3);
    hide Pow2;
    if m >= 0x800000 {
      DecodeJoined(n + 1, m / 256);
      assert m / 256 * (256 * p) == m / 256 * 256 * p;
    } else {
      DecodeJoined(n, m);
      if n == 3 { DivUnique(m, 1, m, 0); }
    }
  }

  lemma {:induction false} StableLong(v: nat, n: nat, m: nat)
    requires v > 0 && n == ByteLength(v) && n >= 3 && m == Mantissa(v, n) && 0x10000 <= m < 0x1000000
    ensures var w := Decoded(CompactOf(v, false)); w <= v && CompactOf(w, false) == CompactOf(v, false)
  {
    DecodeLong(v, n, m);
    PaddedLength(Kept(m), n - 3);
    LeadingPart(v, n, m);
    hide ByteLength, Mantissa, Decoded, Pow2, Kept, CompactOf;
    SameCompact(v, Kept(m) * Pow2(8 * (n - 3)), n, m);
  }

  lemma {:induction false} SameCompact(v: nat, w: nat, n: nat, m: nat)
    requires n == ByteLength(v) == ByteLength(w) && Mantissa(v, n) == m && Mantissa(w, n) == Kept(m)
    ensures CompactOf(w, false) == CompactOf(v, false)
  {
    hide ByteLength, Mantissa;
    assert Kept(m) >= 0x800000 <==> m >= 0x800000;
    assert Kept(m) / 256 == m / 256;
  }

  lemma {:induction false} LeadingPart(v: nat, n: nat, m: nat)
    requires n >= 3 && m == Mantissa(v, n)
    ensures Kept(m) * Pow2(8 * (n - 3)) <= v
  {
    hide Pow2, Kept;
    var p := Pow2(8 * (n - 3));
    SmallPowers();
    if n == 3 { DivUnique(v, 1, v, 0); }
    KeptBelow(v, p, m);
  }

  lemma {:induction false} KeptBelow(v: nat, p: nat, m: nat)
    requires p > 0 && m == v / p
    ensures Kept(m) * p <= v
  {
    assert v == p * m + v % p;
    MulMono(p, Kept(m), m);
  }

  // ---- No compact form is closer ----

  /** What a form stands for, as a word of 23 bits and a number of zero bytes. */
  lemma {:induction false} DecodedWord(c: nat) returns (x: nat, k: nat)
    ensures x < 0x800000 && Decoded(c) == x * Pow2(8 * k)
  {
    var size, word := c / 0x1000000, c % 0x800000;
    if size <= 3 {
      x, k := Decoded(c), 0;
      DivSmaller(word, Pow2(8 * (3 - size)));
      assert Pow2(0) == 1;
    } else {
      x, k := word, size - 3;
    }
  }

  lemma {:induction false} MultipleBelow(v: nat, p: nat, q: nat, y: nat)
    requires p > 0 && v < (q + 1) * p && y * p <= v
    ensures y * p <= q * p
  {
    if y > q { MulMono(p, q + 1, y); }
    MulMono(p, y, q);
  }

  lemma {:induction false} ShortBelow(q: nat, x: nat, s: nat, r: nat)
    requires q >= 0x8000 && x < 0x800000 && s <= r
    ensures x * s <= q * (256 * r)
  {
    MulMono(x, s, r);
    MulMono(r, x, 0x800000);
    MulMono(256 * r, 0x8000, q);
  }

  /** Cut after j bytes, with 16 bits left, a number is no less than any shorter word below it. */
  lemma {:induction false} CutLargest(v: nat, q: nat, j: nat, x: nat, k: nat)
    requires q >= 0x8000 && v < (q + 1) * Pow2(8 * j) && x < 0x800000 && x * Pow2(8 * k) <= v
    ensures x * Pow2(8 * k) <= q * Pow2(8 * j)
  {
    if k >= j {
      Pow2Add(8 * j, 8 * (k - j));
      assert 8 * j + 8 * (k - j) == 8 * k;
      hide Pow2;
      var y := x * Pow2(8 * (k - j));
      Regroup(x, Pow2(8 * j), Pow2(8 * (k - j)));
      MultipleBelow(v, Pow2(8 * j), q, y);
    } else {
      Constants();
      Pow2Add(8, 8 * (j - 1));
      Pow2Order(8 * k, 8 * (j - 1));
      assert 8 + 8 * (j - 1) == 8 * j;
      hide Pow2;
      ShortBelow(q, x, Pow2(8 * k), Pow2(8 * (j - 1)));
    }
  }

  lemma {:induction false} Regroup(x: nat, p: nat, r: nat)
    ensures x * (p * r) == x * r * p
  {
    assert p * r == r * p && x * (r * p) == x * r * p;
  }

  /** A compact form stands for the largest number not above the encoded one that any form stands for. */
  lemma {:induction false} CompactLargest(v: nat, c: nat)
    ensures Decoded(c) <= v ==> Decoded(c) <= Decoded(CompactOf(v, false)) <= v
  {
    CompactStable(v);
    if v > 0 && Decoded(c) <= v {
      MantissaBounds(v);
      ByteBounds(v);
      hide CompactOf, Decoded, Mantissa, ByteLength, Pow2;
      var n := ByteLength(v);
      var m := Mantissa(v, n);
      if n <= 2 {
        StableShort(v, n, m);
      } else {
        LargestLong(v, n, m, c);
      }
    }
  }

  lemma {:induction false} LargestLong(v: nat, n: nat, m: nat, c: nat)
    requires n == ByteLength(v) && n >= 3 && m == Mantissa(v, n) && 0x10000 <= m < 0x1000000 && Decoded(c) <= v
    ensures Decoded(c) <= Decoded(CompactOf(v, false))
  {
    hide CompactOf, Decoded, Mantissa, ByteLength, Pow2;
    DecodeLong(v, n, m);
    var x, k := DecodedWord(c);
    CutAt(v, n, m);
    if m >= 0x800000 {
      CutLargest(v, m / 256, n - 2, x, k);
    } else {
      CutLargest(v, m, n - 3, x, k);
    }
  }

  /** Where the encoding cuts a number: after its third byte, or after the second. */
  lemma {:induction false} CutAt(v: nat, n: nat, m: nat)
    requires n >= 3 && m == Mantissa(v, n)
    ensures v < (m + 1) * Pow2(8 * (n - 3))
    ensures v < (m / 256 + 1) * Pow2(8 * (n - 2))
    ensures m / 256 * Pow2(8 * (n - 2)) == m / 256 * 256 * Pow2(8 * (n - 3))
  {
    Constants();
    SmallPowers();
    Pow2Add(8, 8 * (n - 3));
    assert 8 + 8 * (n - 3) == 8 * (n - 2);
    hide Pow2;
    if n == 3 { DivUnique(v, 1, v, 0); }
    CutBounds(v, Pow2(8 * (n - 3)), m);
  }

  lemma {:induction false} CutBounds(v: nat, p: nat, m: nat)
    requires p > 0 && m == v / p
    ensures v < (m + 1) * p && v < (m / 256 + 1) * (256 * p) && m / 256 * (256 * p) == m / 256 * 256 * p
  {
    assert v == p * m + v % p && (m + 1) * p == p * m + p;
    Regroup(m / 256, p, 256);
    Regroup(m / 256 + 1, p, 256);
    MulMono(p, m + 1, m / 256 * 256 + 256);
  }

  // ---- The round trip, signs included ----

  /** The word of a compact form is below the sign bit, and zero only for the number zero. */
  lemma {:induction false} WordBounds(v: nat)
    ensures var n, m := ByteLength(v), Mantissa(v, ByteLength(v));
            var word := if m >= 0x800000 then m / 256 else m;
            word < 0x800000 && (word != 0 <==> v > 0) && (v == 0 <==> n == 0)
  {
    if v > 0 {
      MantissaBounds(v);
      ByteBounds(v);
    }
  }

  /** The sign is one bit, set only for numbers other than zero, and it does not change the number. */
  lemma {:induction false} SignBit(v: nat)
    ensures CompactOf(v, true) == CompactOf(v, false) + if v > 0 then 0x800000 else 0
    ensures CompactOf(v, false) / 0x800000 % 2 == 0
    ensures Decoded(CompactOf(v, true)) == Decoded(CompactOf(v, false))
    ensures v > 0 <==> CompactOf(v, false) > 0
  {
    WordBounds(v);
    hide ByteLength, Mantissa, Pow2, Quotient;
    var n, m := ByteLength(v), Mantissa(v, ByteLength(v));
    var size, word := if m >= 0x800000 then n + 1 else n, if m >= 0x800000 then m / 256 else m;
    SignParts(size, word);
  }

  lemma {:induction false} SignParts(size: nat, word: nat)
    requires word < 0x800000
    ensures var c := word + size * 0x1000000;
            && c / 0x800000 % 2 == 0 && (c + 0x800000) / 0x800000 % 2 == 1
            && (c + 0x800000) / 0x1000000 == c / 0x1000000 && (c + 0x800000) % 0x800000 == c % 0x800000
  {
  }

  /** What a compact form decodes to, sign included, encodes to the same form. */
  lemma {:induction false} SignedStable(v: nat, negative: bool)
    ensures var c := CompactOf(v, negative);
            var w := Decoded(c);
            w <= v && (w == 0 <==> v == 0) && CompactOf(w, w != 0 && c / 0x800000 % 2 == 1) == c
  {
    hide Decoded, CompactOf;
    CompactStable(v);
    SignBit(v);
    var w := Decoded(CompactOf(v, false));
    SignBit(w);
    SignFlips(CompactOf(v, false));
  }

  lemma {:induction false} SignFlips(c: nat)
    requires c / 0x800000 % 2 == 0
    ensures (c + 0x800000) / 0x800000 % 2 == 1
  {
  }

  /** Encoding any number with any sign, decoding that and encoding again gives the same form. */
  method CompactRoundTrip(a: seq<nat>, negative: bool) returns (c: nat, again: nat, overflow: bool)
    requires |a| == WIDTH && Digits(a)
    ensures again == c && !overflow
  {
    hide Value, Decoded, CompactOf, Pow2, BPow;
    c := GetCompact(a, negative);
    var pn, sign;
    pn, sign, overflow := SetCompact(c);
    SignedStable(Value(a), negative);
    ValueBound(a);
    BPowIsPow2(WIDTH);
    ExactMod(Decoded(c), 0, Pow2(256));
    again := GetCompact(pn, sign);
  }
}
