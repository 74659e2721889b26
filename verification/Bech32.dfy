/** Bech32 and Bech32m strings (src/bech32.cpp; BIP 173 and BIP 350). */
module Bech32s {
  import opened Options
  import opened Bech32Poly

  // ---- Residues packed into words ----

  /** The six coefficients in one 30-bit word, the highest power first. */
  function Pack(p: Poly): bv32 {
    ((p.c0 as bv32) << 25) | ((p.c1 as bv32) << 20) | ((p.c2 as bv32) << 15) | ((p.c3 as bv32) << 10)
        | ((p.c4 as bv32) << 5) | (p.c5 as bv32)
  }

  lemma WordsAdd(a: bv5, b: bv5, c: bv5, d: bv5, e: bv5, f: bv5, a': bv5, b': bv5, c': bv5, d': bv5, e': bv5, f': bv5)
    ensures (((a as bv32) << 25) | ((b as bv32) << 20) | ((c as bv32) << 15) | ((d as bv32) << 10) | ((e as bv32) << 5)
            | (f as bv32))
            ^ (((a' as bv32) << 25) | ((b' as bv32) << 20) | ((c' as bv32) << 15) | ((d' as bv32) << 10)
                | ((e' as bv32) << 5) | (f' as bv32))
            == (((a ^ a') as bv32) << 25) | (((b ^ b') as bv32) << 20) | (((c ^ c') as bv32) << 15)
                | (((d ^ d') as bv32) << 10)
               | (((e ^ e') as bv32) << 5) | ((f ^ f') as bv32)
  {
  }

  lemma PackAdd(p: Poly, q: Poly)
    ensures Pack(p) ^ Pack(q) == Pack(Add(p, q))
  {
    WordsAdd(p.c0, p.c1, p.c2, p.c3, p.c4, p.c5, q.c0, q.c1, q.c2, q.c3, q.c4, q.c5);
  }

  lemma WordsShift(a: bv5, b: bv5, c: bv5, d: bv5, e: bv5, f: bv5, v: bv5, w: bv32)
    requires w == ((a as bv32) << 25) | ((b as bv32) << 20) | ((c as bv32) << 15) | ((d as bv32) << 10)
            | ((e as bv32) << 5) | (f as bv32)
    ensures w >> 25 == a as bv32
    ensures ((w & 0x1ffffff) << 5) ^ (v as bv32)
            == ((b as bv32) << 25) | ((c as bv32) << 20) | ((d as bv32) << 15) | ((e as bv32) << 10)
                | ((f as bv32) << 5) | (v as bv32)
  {
  }

  lemma PackShift(p: Poly, v: bv5)
    ensures Pack(p) >> 25 == p.c0 as bv32
    ensures ((Pack(p) & 0x1ffffff) << 5) ^ (v as bv32) == Pack(Shifted(p, v))
  {
    WordsShift(p.c0, p.c1, p.c2, p.c3, p.c4, p.c5, v, Pack(p));
  }

  lemma WordsGroups(a: bv5, b: bv5, c: bv5, d: bv5, e: bv5, f: bv5, w: bv32)
    requires w == ((a as bv32) << 25) | ((b as bv32) << 20) | ((c as bv32) << 15) | ((d as bv32) << 10)
            | ((e as bv32) << 5) | (f as bv32)
    ensures (w >> 25) & 31 == a as bv32 && (w >> 20) & 31 == b as bv32 && (w >> 15) & 31 == c as bv32
    ensures (w >> 10) & 31 == d as bv32 && (w >> 5) & 31 == e as bv32 && w & 31 == f as bv32
  {
  }

  lemma PackGroups(p: Poly)
    ensures (Pack(p) >> 25) & 31 == p.c0 as bv32 && (Pack(p) >> 20) & 31 == p.c1 as bv32
    ensures (Pack(p) >> 15) & 31 == p.c2 as bv32
    ensures (Pack(p) >> 10) & 31 == p.c3 as bv32 && (Pack(p) >> 5) & 31 == p.c4 as bv32 && Pack(p) & 31 == p.c5 as bv32
  {
    WordsGroups(p.c0, p.c1, p.c2, p.c3, p.c4, p.c5, Pack(p));
  }

  lemma WideInjective(x: bv5, y: bv5)
    ensures x as bv32 == y as bv32 ==> x == y
    ensures (x as bv32) as bv5 == x
  {
  }

  lemma PackInjective(p: Poly, q: Poly)
    requires Pack(p) == Pack(q)
    ensures p == q
  {
    hide Pack;
    PackGroups(p);
    PackGroups(q);
    WideInjective(p.c0, q.c0);
    WideInjective(p.c1, q.c1);
    WideInjective(p.c2, q.c2);
    WideInjective(p.c3, q.c3);
    WideInjective(p.c4, q.c4);
    WideInjective(p.c5, q.c5);
  }

  lemma WideBits(x: bv5)
    ensures (x as bv32) & 1 != 0 <==> Bit(x, 1)
    ensures (x as bv32) & 2 != 0 <==> Bit(x, 2)
    ensures (x as bv32) & 4 != 0 <==> Bit(x, 4)
    ensures (x as bv32) & 8 != 0 <==> Bit(x, 8)
    ensures (x as bv32) & 16 != 0 <==> Bit(x, 16)
  {
  }

  lemma GeneratorWords()
    ensures Pack(K1) == 0x3b6a57b2 && Pack(K2) == 0x26508e6d && Pack(K4) == 0x1ea119fa
    ensures Pack(K8) == 0x3d4233dd && Pack(K16) == 0x2a1462b3
    ensures Pack(ONE) == 1
  {
  }

  /** One multiple of the generator added, if its bit is set. */
  method AddIf(word: bv32, b: bool, k: bv32, ghost p: Poly, ghost q: Poly) returns (c: bv32)
    requires word == Pack(p) && k == Pack(q)
    ensures c == Pack(Add(p, When(b, q)))
  {
    hide Pack, Add;
    PackAdd(p, q);
    AddLaws(p, ZERO);
    c := word;
    if b {
      c := c ^ k;
    }
  }

  lemma StepInOrder(p: Poly, v: bv5)
    ensures Step(p, v) == Add(Add(Add(Add(Add(Shifted(p, v), When(Bit(p.c0, 1), K1)), When(Bit(p.c0, 2), K2)),
            When(Bit(p.c0, 4), K4)),
                                  When(Bit(p.c0, 8), K8)), When(Bit(p.c0, 16), K16))
  {
    hide Add, When, Bit;
    var s := Shifted(p, v);
    var a, b, c, d := When(Bit(p.c0, 1), K1), When(Bit(p.c0, 2), K2), When(Bit(p.c0, 4), K4), When(Bit(p.c0, 8), K8);
    AddAssociative(s, a, b);
    AddAssociative(s, Add(a, b), c);
    AddAssociative(s, Add(Add(a, b), c), d);
    AddAssociative(s, Add(Add(Add(a, b), c), d), When(Bit(p.c0, 16), K16));
  }

  /** One round of the loop on packed words. */
  method StepWord(word: bv32, v: bv5, ghost p: Poly) returns (c: bv32)
    requires word == Pack(p)
    ensures c == Pack(Step(p, v))
  {
    hide Pack, Add, When, Step, Bit;
    PackShift(p, v);
    WideBits(p.c0);
    GeneratorWords();
    StepInOrder(p, v);
    var c0 := word >> 25;
    c := ((word & 0x1ffffff) << 5) ^ (v as bv32);
    ghost var q := Shifted(p, v);
    c := AddIf(c, c0 & 1 != 0, 0x3b6a57b2, q, K1);
    q := Add(q, When(Bit(p.c0, 1), K1));
    c := AddIf(c, c0 & 2 != 0, 0x26508e6d, q, K2);
    q := Add(q, When(Bit(p.c0, 2), K2));
    c := AddIf(c, c0 & 4 != 0, 0x1ea119fa, q, K4);
    q := Add(q, When(Bit(p.c0, 4), K4));
    c := AddIf(c, c0 & 8 != 0, 0x3d4233dd, q, K8);
    q := Add(q, When(Bit(p.c0, 8), K8));
    c := AddIf(c, c0 & 16 != 0, 0x2a1462b3, q, K16);
  }

  /** The residue of the word with a one in front. */
  method PolyMod(v: seq<bv5>) returns (c: bv32)
    ensures c == Pack(Residue(ONE, v))
  {
    hide Pack, Step;
    GeneratorWords();
    c := 1;
    for i := 0 to |v|
      invariant c == Pack(Residue(ONE, v[..i]))
    {
      ResidueSnoc(ONE, v[..i], v[i]);
      assert v[..i + 1] == v[..i] + [v[i]];
      c := StepWord(c, v[i], Residue(ONE, v[..i]));
    }
    assert v[..|v|] == v;
  }

  // ---- Checksums ----

  datatype Encoding = BECH32 | BECH32M

  const CHECKSUM_SIZE := 6

  function EncodingConstant(e: Encoding): bv32 {
    if e == BECH32 then 1 else 0x2bc830a3
  }

  /** The residue that a valid word leaves. */
  function Target(e: Encoding): Poly {
    if e == BECH32 then ONE else Poly(21, 28, 16, 12, 5, 3)
  }

  lemma TargetPacked(e: Encoding)
    ensures Pack(Target(e)) == EncodingConstant(e)
  {
  }

  predicate SevenBit(s: string) {
    forall i {:trigger s[i]} :: 0 <= i < |s| ==> s[i] < 128 as char
  }

  function High(c: char): bv5
    requires c < 128 as char
  {
    (c as int / 32) as bv5
  }

  function Low(c: char): bv5
    requires c < 128 as char
  {
    (c as int % 32) as bv5
  }

  /** The human-readable part as symbols. */
  function Expand(hrp: string): seq<bv5>
    requires SevenBit(hrp)
  {
    seq(|hrp|, i requires 0 <= i < |hrp| => High(hrp[i])) + [0] + seq(|hrp|, i requires 0 <= i < |hrp| => Low(hrp[i]))
  }

  method PreparePolynomialCoefficients(hrp: string, values: seq<bv5>) returns (r: seq<bv5>)
    requires SevenBit(hrp)
    ensures r == Expand(hrp) + values
  {
    r := [];
    for i := 0 to |hrp|
      invariant |r| == i && forall k :: 0 <= k < i ==> r[k] == High(hrp[k])
    {
      r := r + [High(hrp[i])];
    }
    r := r + [0];
    for i := 0 to |hrp|
      invariant |r| == |hrp| + 1 + i && r[|hrp|] == 0
      invariant forall k :: 0 <= k < |hrp| ==> r[k] == High(hrp[k])
      invariant forall k :: 0 <= k < i ==> r[|hrp| + 1 + k] == Low(hrp[k])
    {
      r := r + [Low(hrp[i])];
    }
    assert r == Expand(hrp);
    r := r + values;
  }

  /** The symbols, the last six of them a checksum, form a valid word of the encoding. */
  predicate Checks(e: Encoding, hrp: string, symbols: seq<bv5>)
    requires SevenBit(hrp)
  {
    Residue(ONE, Expand(hrp) + symbols) == Target(e)
  }

  method VerifyChecksum(hrp: string, symbols: seq<bv5>) returns (r: Option<Encoding>)
    requires SevenBit(hrp)
    ensures forall e :: r == Some(e) <==> Checks(e, hrp, symbols)
  {
    hide Pack, Residue, Expand;
    TargetPacked(BECH32);
    TargetPacked(BECH32M);
    var enc := PreparePolynomialCoefficients(hrp, symbols);
    var check := PolyMod(enc);
    if check == EncodingConstant(BECH32) {
      PackInjective(Residue(ONE, enc), ONE);
      return Some(BECH32);
    }
    if check == EncodingConstant(BECH32M) {
      PackInjective(Residue(ONE, enc), Target(BECH32M));
      return Some(BECH32M);
    }
    return None;
  }

  function Checksum(e: Encoding, hrp: string, values: seq<bv5>): (r: seq<bv5>)
    requires SevenBit(hrp)
    ensures |r| == CHECKSUM_SIZE
  {
    Symbols(Add(Residue(ONE, Expand(hrp) + values + Zeros(6)), Target(e)))
  }

  /** The checksum is the one way to complete the values to a valid word. */
  lemma ChecksumOnly(e: Encoding, hrp: string, values: seq<bv5>, s: seq<bv5>)
    requires SevenBit(hrp) && |s| == CHECKSUM_SIZE
    ensures Checks(e, hrp, values + s) <==> s == Checksum(e, hrp, values)
  {
    hide Residue, Expand;
    ChecksumUnique(Expand(hrp) + values, Target(e), s);
    assert Expand(hrp) + values + s == Expand(hrp) + (values + s);
  }

  method CreateChecksum(e: Encoding, hrp: string, values: seq<bv5>) returns (r: seq<bv5>)
    requires SevenBit(hrp)
    ensures |r| == CHECKSUM_SIZE && Checks(e, hrp, values + r)
    ensures r == Checksum(e, hrp, values)
  {
    hide Pack, Residue, Expand, Add;
    var enc := PreparePolynomialCoefficients(hrp, values);
    enc := enc + [0, 0, 0, 0, 0, 0];
    assert [0, 0, 0, 0, 0, 0] == Zeros(6);
    var mod := PolyMod(enc);
    mod := mod ^ EncodingConstant(e);
    ghost var p := Add(Residue(ONE, enc), Target(e));
    PackAdd(Residue(ONE, enc), Target(e));
    TargetPacked(e);
    r := Groups(mod, p);
    ChecksumOnly(e, hrp, values, r);
  }

  /** The 5-bit groups of a packed residue. */
  method Groups(mod: bv32, ghost p: Poly) returns (r: seq<bv5>)
    requires mod == Pack(p)
    ensures r == Symbols(p)
  {
    hide Pack;
    PackGroups(p);
    WideInjective(p.c0, 0);
    WideInjective(p.c1, 0);
    WideInjective(p.c2, 0);
    WideInjective(p.c3, 0);
    WideInjective(p.c4, 0);
    WideInjective(p.c5, 0);
    r := [((mod >> 25) & 31) as bv5, ((mod >> 20) & 31) as bv5, ((mod >> 15) & 31) as bv5,
          ((mod >> 10) & 31) as bv5, ((mod >> 5) & 31) as bv5, (mod & 31) as bv5];
  }

  /** Changing one symbol of a valid word never gives another valid word of the same encoding. */
  lemma SubstitutionDetected(e: Encoding, hrp: string, symbols: seq<bv5>, i: nat, x: bv5)
    requires SevenBit(hrp) && Checks(e, hrp, symbols) && i < |symbols| && symbols[i] != x
    ensures !Checks(e, hrp, symbols[i := x])
  {
    hide Residue, Expand;
    var pre := Expand(hrp);
    OneErrorDetected(ONE, pre + symbols, |pre| + i, x);
    assert (pre + symbols)[|pre| + i := x] == pre + symbols[i := x];
  }
}
