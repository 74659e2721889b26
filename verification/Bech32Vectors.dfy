/** One string from BIP 173 and one from BIP 350, which fix the generator, the two constants, the expansion of the
    human-readable part and the order of the symbols (src/bech32.cpp). */
module Bech32Vectors {
  import opened Bech32Poly
  import opened Bech32s
  import opened Bech32Strings

  lemma {:induction false} OneMore(w: seq<bv5>, k: nat, p: Poly, q: Poly)
    requires k < |w| && Residue(ONE, w[..k]) == p && Step(p, w[k]) == q
    ensures Residue(ONE, w[..k + 1]) == q
  {
    hide Step;
    assert w[..k + 1] == w[..k] + [w[k]];
    ResidueSnoc(ONE, w[..k], w[k]);
  }

  /** The first five symbols only push the leading one up. */
  lemma {:induction false} FirstFive(w: seq<bv5>)
    requires |w| >= 5
    ensures Residue(ONE, w[..5]) == Poly(1, w[0], w[1], w[2], w[3], w[4])
  {
    hide Step;
    assert w[..0] == [];
    Push(w, 0, ONE);
    Push(w, 1, Shifted(ONE, w[0]));
    Push(w, 2, Poly(0, 0, 0, 1, w[0], w[1]));
    Push(w, 3, Poly(0, 0, 1, w[0], w[1], w[2]));
    Push(w, 4, Poly(0, 1, w[0], w[1], w[2], w[3]));
  }

  lemma {:induction false} Push(w: seq<bv5>, k: nat, p: Poly)
    requires k < |w| && Residue(ONE, w[..k]) == p && p.c0 == 0
    ensures Residue(ONE, w[..k + 1]) == Shifted(p, w[k])
  {
    hide Step;
    StepFromLow(p, w[k]);
    OneMore(w, k, p, Shifted(p, w[k]));
  }

  lemma {:induction false} CharIs(v: bv5, i: nat)
    requires i < 32 && v == i as bv5
    ensures CharOf(v) == CHARSET[i]
  {
    FiveBits(i);
  }

  lemma {:induction false} PrefixA()
    ensures SevenBit("a") && Expand("a") == [3, 0, 1]
  {
    assert 'a' as int / 32 == 3 && 'a' as int % 32 == 1;
  }

  lemma {:induction false} Bip173Steps()
    ensures Step(Poly(1, 3, 0, 1, 10, 28), 25) == Poly(30, 22, 21, 31, 1, 11)
    ensures Step(Poly(30, 22, 21, 31, 1, 11), 31) == Poly(1, 15, 16, 16, 28, 6)
    ensures Step(Poly(1, 15, 16, 16, 28, 6), 20) == Poly(18, 6, 4, 9, 27, 6)
    ensures Step(Poly(18, 6, 4, 9, 27, 6), 31) == Poly(0, 0, 0, 0, 0, 1)
  {
  }

  lemma {:induction false} Bip173Residue()
    ensures Residue(ONE, [3, 0, 1, 10, 28, 25, 31, 20, 31]) == Target(BECH32)
  {
    hide Step, Residue;
    var w: seq<bv5> := [3, 0, 1, 10, 28, 25, 31, 20, 31];
    FirstFive(w);
    Bip173Steps();
    OneMore(w, 5, Poly(1, 3, 0, 1, 10, 28), Poly(30, 22, 21, 31, 1, 11));
    OneMore(w, 6, Poly(30, 22, 21, 31, 1, 11), Poly(1, 15, 16, 16, 28, 6));
    OneMore(w, 7, Poly(1, 15, 16, 16, 28, 6), Poly(18, 6, 4, 9, 27, 6));
    OneMore(w, 8, Poly(18, 6, 4, 9, 27, 6), Poly(0, 0, 0, 0, 0, 1));
    assert w[..9] == w;
  }

  /** The first valid string of BIP 173, in upper case. */
  lemma {:induction false} Bip173()
    ensures Encodes("A12UEL5L", 90, BECH32, "a", [])
  {
    hide Residue, Symbols, Step, Add;
    var check: seq<bv5> := [10, 28, 25, 31, 20, 31];
    Bip173Residue();
    PrefixA();
    assert Expand("a") + ([] + check) == [3, 0, 1, 10, 28, 25, 31, 20, 31];
    ChecksumOnly(BECH32, "a", [], check);
    assert [] + check == check;
    Bip173Text();
    assert Lowered("A12UEL5L") == "a12uel5l";
  }

  lemma {:induction false} Bip173Text()
    ensures Text([10, 28, 25, 31, 20, 31]) == "2uel5l"
  {
    CharIs(10, 10);
    CharIs(28, 28);
    CharIs(25, 25);
    CharIs(31, 31);
    CharIs(20, 20);
    CharIs(31, 31);
  }

  lemma {:induction false} Bip350Steps()
    ensures Step(Poly(1, 3, 0, 1, 31, 0), 9) == Poly(30, 22, 21, 10, 29, 27)
    ensures Step(Poly(30, 22, 21, 10, 29, 27), 19) == Poly(1, 15, 5, 12, 12, 10)
    ensures Step(Poly(1, 15, 5, 12, 12, 10), 17) == Poly(18, 19, 24, 25, 23, 3)
    ensures Step(Poly(18, 19, 24, 25, 23, 3), 29) == Poly(21, 28, 16, 12, 5, 3)
  {
  }

  lemma {:induction false} Bip350Residue()
    ensures Residue(ONE, [3, 0, 1, 31, 0, 9, 19, 17, 29]) == Target(BECH32M)
  {
    hide Step, Residue;
    var w: seq<bv5> := [3, 0, 1, 31, 0, 9, 19, 17, 29];
    FirstFive(w);
    Bip350Steps();
    OneMore(w, 5, Poly(1, 3, 0, 1, 31, 0), Poly(30, 22, 21, 10, 29, 27));
    OneMore(w, 6, Poly(30, 22, 21, 10, 29, 27), Poly(1, 15, 5, 12, 12, 10));
    OneMore(w, 7, Poly(1, 15, 5, 12, 12, 10), Poly(18, 19, 24, 25, 23, 3));
    OneMore(w, 8, Poly(18, 19, 24, 25, 23, 3), Poly(21, 28, 16, 12, 5, 3));
    assert w[..9] == w;
  }

  /** The string of BIP 350 with an empty payload. */
  lemma {:induction false} Bip350()
    ensures Encodes("a1lqfn3a", 90, BECH32M, "a", [])
  {
    hide Residue, Symbols, Step, Add;
    var check: seq<bv5> := [31, 0, 9, 19, 17, 29];
    Bip350Residue();
    PrefixA();
    assert Expand("a") + ([] + check) == [3, 0, 1, 31, 0, 9, 19, 17, 29];
    ChecksumOnly(BECH32M, "a", [], check);
    assert [] + check == check;
    Bip350Text();
    assert Lowered("a1lqfn3a") == "a1lqfn3a";
  }

  lemma {:induction false} Bip350Text()
    ensures Text([31, 0, 9, 19, 17, 29]) == "lqfn3a"
  {
    CharIs(31, 31);
    CharIs(0, 0);
    CharIs(9, 9);
    CharIs(19, 19);
    CharIs(17, 17);
    CharIs(29, 29);
  }
}
