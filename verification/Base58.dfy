/** Base58 strings (src/base58.cpp). Characters are their codes. */
module Base58s {
  import opened Options
  import opened Powers
  import opened Radix
  import Sums

  // ---- The alphabet ----

  const ONE: nat := 49

  /** pszBase58: all alphanumeric characters except 0, I, O and l. */
  function CharOf(d: nat): nat
    requires d < 58
  {
    if d < 9 then 49 + d else if d < 17 then 65 + (d - 9) else if d < 22 then 74 + (d - 17)
    else if d < 33 then 80 + (d - 22) else if d < 44 then 97 + (d - 33) else 109 + (d - 44)
  }

  /** mapBase58: the digit of a character, or -1. */
  function DigitOf(c: nat): int {
    if 49 <= c <= 57 then c - 49 else if 65 <= c <= 72 then c - 65 + 9 else if 74 <= c <= 78 then c - 74 + 17
    else if 80 <= c <= 90 then c - 80 + 22
        else if 97 <= c <= 107 then c - 97 + 33 else if 109 <= c <= 122 then c - 109 + 44 else -1
  }

  lemma {:induction false} Alphabet()
    ensures forall d: nat :: d < 58 ==>
            DigitOf(CharOf(d)) == d && !IsSpace(CharOf(d)) && CharOf(d) != 0 && (CharOf(d) == ONE <==> d == 0)
    ensures forall c: nat :: DigitOf(c) != -1 ==> 0 <= DigitOf(c) < 58 && CharOf(DigitOf(c)) == c && !IsSpace(c)
  {
  }

  predicate IsSpace(c: nat) {
    c == 32 || 9 <= c <= 13
  }

  function Chars(ds: seq<nat>): seq<nat>
    requires DigitsBelow(58, ds)
  {
    seq(|ds|, i requires 0 <= i < |ds| => CharOf(ds[i]))
  }

  predicate ValidChars(s: seq<nat>) {
    forall i {:trigger s[i]} :: 0 <= i < |s| ==> DigitOf(s[i]) != -1
  }

  function DigitsIn(s: seq<nat>): (ds: seq<nat>)
    requires ValidChars(s)
    ensures |ds| == |s| && DigitsBelow(58, ds) && forall i {:trigger ds[i]} :: 0 <= i < |s| ==> ds[i] == DigitOf(s[i])
  {
    Alphabet();
    seq(|s|, i requires 0 <= i < |s| => DigitOf(s[i]))
  }

  // ---- What the two functions compute ----

  function Repeat(n: nat, c: nat): seq<nat> {
    seq(n, _ => c)
  }

  /** How many of the first elements are `x`. */
  function Leading(x: nat, s: seq<nat>): (n: nat)
    ensures n <= |s| && (forall i {:trigger s[i]} :: 0 <= i < n ==> s[i] == x) && (n < |s| ==> s[n] != x)
  {
    if s != [] && s[0] == x then 1 + Leading(x, s[1..]) else 0
  }

  lemma {:induction false} LeadingUnique(x: nat, s: seq<nat>, n: nat)
    requires n <= |s| && (forall i {:trigger s[i]} :: 0 <= i < n ==> s[i] == x) && (n < |s| ==> s[n] != x)
    ensures Leading(x, s) == n
  {
  }

  predicate Bytes(s: seq<nat>) {
    DigitsBelow(256, s)
  }

  /** One '1' for each leading zero byte, then the rest as a number in base 58. */
  function Encoded(b: seq<nat>): seq<nat>
    requires Bytes(b)
  {
    var z := Leading(0, b);
    ValueOfDigits(58, ValueOf(256, b[z..]));
    Repeat(z, ONE) + Chars(DigitsOf(58, ValueOf(256, b[z..])))
  }

  /** The bytes a string of base 58 characters stands for. */
  function BytesOf(core: seq<nat>): seq<nat>
    requires ValidChars(core)
  {
    var z := Leading(ONE, core);
    Repeat(z, 0) + DigitsOf(256, ValueOf(58, DigitsIn(core[z..])))
  }

  function LeadingSpaces(s: seq<nat>): (n: nat)
    ensures n <= |s| && (forall i {:trigger s[i]} :: 0 <= i < n ==> IsSpace(s[i])) && (n < |s| ==> !IsSpace(s[n]))
  {
    if s != [] && IsSpace(s[0]) then 1 + LeadingSpaces(s[1..]) else 0
  }

  function WordLength(s: seq<nat>): (n: nat)
    ensures n <= |s| && (forall i {:trigger s[i]} :: 0 <= i < n ==> !IsSpace(s[i])) && (n < |s| ==> IsSpace(s[n]))
  {
    if s != [] && !IsSpace(s[0]) then 1 + WordLength(s[1..]) else 0
  }

  /** The first word of a string, and what follows it. */
  function Core(s: seq<nat>): seq<nat> {
    var t := s[LeadingSpaces(s)..];
    t[..WordLength(t)]
  }

  function After(s: seq<nat>): seq<nat> {
    var t := s[LeadingSpaces(s)..];
    t[WordLength(t)..]
  }

  predicate AllSpaces(s: seq<nat>) {
    forall i {:trigger s[i]} :: 0 <= i < |s| ==> IsSpace(s[i])
  }

  /** No limit excludes the empty result. */
  function Limit(max: int): nat {
    if max > 0 then max else 0
  }

  /** One word of base 58 characters, with spaces around, for at most `max` bytes. */
  function Decoded(s: seq<nat>, max: int): Option<seq<nat>> {
    if 0 in s || !ValidChars(Core(s)) || !AllSpaces(After(s))
        || |BytesOf(Core(s))| > Limit(max) then None else Some(BytesOf(Core(s)))
  }

  // ---- They are inverse to each other ----

  lemma {:induction false} CoreOfWord(s: seq<nat>)
    requires forall i {:trigger s[i]} :: 0 <= i < |s| ==> !IsSpace(s[i])
    ensures Core(s) == s && After(s) == []
  {
    assert LeadingSpaces(s) == 0 && s[0..] == s;
    assert WordLength(s) == |s|;
  }

  lemma {:induction false} CharsShape(ds: seq<nat>)
    requires DigitsBelow(58, ds)
    ensures var e := Chars(ds); |e| == |ds| && ValidChars(e) && DigitsIn(e) == ds
    ensures forall i {:trigger Chars(ds)[i]} :: 0 <= i < |ds| ==>
            !IsSpace(Chars(ds)[i]) && Chars(ds)[i] != 0 && (Chars(ds)[i] == ONE ==> ds[i] == 0)
  {
    hide DigitOf, CharOf, IsSpace;
    Alphabet();
  }

  lemma {:induction false} OneShape()
    ensures DigitOf(ONE) != -1 && !IsSpace(ONE) && ONE != 0
  {
  }

  /** Ones, then characters that do not begin with a one. */
  lemma {:induction false} WordShape(z: nat, ds: seq<nat>)
    requires DigitsBelow(58, ds) && NoLeadingZero(ds)
    ensures var e := Repeat(z, ONE) + Chars(ds);
            && ValidChars(e) && 0 !in e && (forall i {:trigger e[i]} :: 0 <= i < |e| ==> !IsSpace(e[i]))
            && Leading(ONE, e) == z && e[z..] == Chars(ds)
  {
    hide DigitOf, CharOf, IsSpace, Chars;
    CharsShape(ds);
    OneShape();
    var e := Repeat(z, ONE) + Chars(ds);
    assert e[z..] == Chars(ds);
    LeadingUnique(ONE, e, z);
  }

  lemma {:induction false} EncodedShape(b: seq<nat>)
    requires Bytes(b)
    ensures var z := Leading(0, b); var e := Encoded(b); var ds := DigitsOf(58, ValueOf(256, b[z..]));
            && DigitsBelow(58, ds) && ValidChars(e) && 0 !in e
                && (forall i {:trigger e[i]} :: 0 <= i < |e| ==> !IsSpace(e[i]))
            && Leading(ONE, e) == z && e[z..] == Chars(ds) && (ValidChars(e[z..]) ==> DigitsIn(e[z..]) == ds)
  {
    hide DigitOf, CharOf, IsSpace, Chars, ValueOf, DigitsOf, Leading;
    var z := Leading(0, b);
    var v := ValueOf(256, b[z..]);
    ValueOfDigits(58, v);
    CharsShape(DigitsOf(58, v));
    WordShape(z, DigitsOf(58, v));
  }

  /** Decoding an encoded byte string gives it back, if the limit allows its length. */
  lemma {:induction false} DecodeEncoded(b: seq<nat>, max: int)
    requires Bytes(b)
    ensures Decoded(Encoded(b), max) == if |b| <= Limit(max) then Some(b) else None
  {
    hide DigitsOf, ValueOf, Chars, DigitOf, CharOf, IsSpace;
    var z, e := Leading(0, b), Encoded(b);
    EncodedShape(b);
    CoreOfWord(e);
    var rest := b[z..];
    ValueOfDigits(58, ValueOf(256, rest));
    DigitsOfValue(256, rest);
    assert b == Repeat(z, 0) + rest;
    assert ValidChars(e[z..]);
    assert BytesOf(e) == b;
  }

  /** Encoding what a string decodes to gives its word. */
  lemma {:induction false} EncodeDecoded(s: seq<nat>, max: int)
    requires Decoded(s, max).Some?
    ensures Bytes(Decoded(s, max).value) && Encoded(Decoded(s, max).value) == Core(s)
  {
    hide DigitsOf, ValueOf, CharOf, IsSpace;
    var core := Core(s);
    var z := Leading(ONE, core);
    assert ValidChars(core[z..]);
    var ds := DigitsIn(core[z..]);
    var v := ValueOf(58, ds);
    var r := BytesOf(core);
    Alphabet();
    ValueOfDigits(256, v);
    assert r == Repeat(z, 0) + DigitsOf(256, v);
    assert Bytes(r);
    LeadingUnique(0, r, z);
    assert r[z..] == DigitsOf(256, v);
    assert NoLeadingZero(ds);
    DigitsOfValue(58, ds);
    assert Chars(ds) == core[z..];
    assert core == Repeat(z, ONE) + core[z..];
  }

  // ---- The number under construction ----

  /** `buffer` holds v in base b, lowest digit first, in its first `length` digits. */
  ghost predicate Holds(b: nat, buffer: seq<nat>, length: nat, v: nat) {
    && length <= |buffer| && DigitsBelow(b, buffer) && LowFirst(b, buffer) == v
    && (forall j {:trigger buffer[j]} :: length <= j < |buffer| ==> buffer[j] == 0)
        && (length > 0 ==> buffer[length - 1] != 0)
  }

  /** buffer = buffer * times + digit. The carry left over is 0 if the result fits. */
  method Accumulate(buffer: seq<nat>, b: nat, times: nat, digit: nat, length: nat, ghost v: nat)
      returns (r: seq<nat>, i: nat, carry: nat)
    requires b > 1 && times > 0 && Holds(b, buffer, length, v) && v * times + digit < Pow(b, |buffer|)
    ensures carry == 0 && |r| == |buffer| && Holds(b, r, i, v * times + digit) && i >= length
  {
    hide LowFirst, Pow;
    r, i, carry := buffer, 0, digit;
    AccumulateStart(b, buffer, times, digit);
    while (carry != 0 || i < length) && i < |buffer|
      invariant 0 <= i <= |buffer| == |r| && DigitsBelow(b, r) && r[i..] == buffer[i..] && carry >= 0
      invariant LowFirst(b, r[..i]) + Pow(b, i) * carry == LowFirst(b, buffer[..i]) * times + digit
      invariant i > 0 && carry == 0 && i >= length ==> r[i - 1] != 0
      decreases |buffer| - i
    {
      var c := carry + times * buffer[i];
      assert r[i] == buffer[i..][0];
      assert r[i..][1..] == r[i + 1..] && buffer[i..][1..] == buffer[i + 1..];
      AccumulateStep(b, buffer, r, i, times, digit, carry, c);
      LastDigit(b, buffer, length, i, times, carry, c);
      r := r[i := c % b];
      carry := c / b;
      i := i + 1;
    }
    AccumulateEnd(b, buffer, r, i, length, times, digit, carry, v);
  }

  lemma {:induction false} AccumulateStart(b: nat, buffer: seq<nat>, times: nat, digit: nat)
    ensures LowFirst(b, buffer[..0]) + Pow(b, 0) * digit == LowFirst(b, buffer[..0]) * times + digit
  {
  }

  lemma {:induction false} DivParts(c: nat, b: nat)
    requires b > 0
    ensures c == b * (c / b) + c % b && 0 <= c % b < b && c / b >= 0 && (c / b == 0 ==> c % b == c)
  {
    if c / b < 0 { MulMono(b, c / b, -1); }
    if c / b == 0 { assert b * (c / b) == 0; }
  }

  lemma {:induction false} LastDigit(b: nat, buffer: seq<nat>, length: nat, i: nat, times: nat, carry: nat, c: nat)
    requires b > 1 && times > 0 && i < |buffer| && c == carry + times * buffer[i] && (carry != 0 || i < length)
    requires length > 0 && length <= |buffer| ==> buffer[length - 1] != 0
    ensures 0 <= c % b < b && c / b >= 0 && (c / b == 0 && i + 1 >= length ==> c % b != 0)
  {
    DivParts(c, b);
    if i + 1 == length { MulPositive(times, buffer[i]); }
  }

  lemma {:induction false} AccumulateStep(b: nat, buffer: seq<nat>, r: seq<nat>, i: nat, times: nat, digit: nat,
      carry: nat, c: nat)
    requires b > 1 && i < |buffer| == |r| && c == carry + times * buffer[i]
    requires LowFirst(b, r[..i]) + Pow(b, i) * carry == LowFirst(b, buffer[..i]) * times + digit
    ensures c % b >= 0
    ensures LowFirst(b, r[i := c % b][..i + 1]) + Pow(b, i + 1) * (c / b) == LowFirst(b, buffer[..i + 1]) * times
            + digit
  {
    DivParts(c, b);
    OneMore(b, r[i := c % b], i);
    OneMore(b, buffer, i);
    assert r[i := c % b][..i] == r[..i];
    PowUnfold(b, i + 1);
    hide LowFirst, Pow;
    StepTerms(b, Pow(b, i), c, carry, times, buffer[i], LowFirst(b, buffer[..i]));
  }

  lemma {:induction false} OneMore(b: nat, s: seq<nat>, i: nat)
    requires i < |s|
    ensures LowFirst(b, s[..i + 1]) == LowFirst(b, s[..i]) + Pow(b, i) * s[i]
  {
    LowFirstAt(b, s[..i + 1], i);
    assert s[..i + 1][..i] == s[..i] && s[..i + 1][i..] == [s[i]];
    assert LowFirst(b, [s[i]]) == s[i];
  }

  lemma {:induction false} StepTerms(b: nat, p: nat, c: nat, carry: nat, times: nat, d: nat, low: nat)
    requires b > 0 && c == carry + times * d
    ensures p * (c % b) + b * p * (c / b) == p * carry + (low + p * d) * times - low * times
  {
    assert c == b * (c / b) + c % b;
    assert b * p * (c / b) == p * (b * (c / b));
    assert p * (c % b) + p * (b * (c / b)) == p * c;
    assert p * c == p * carry + p * (times * d);
    assert p * (times * d) == p * d * times;
    assert (low + p * d) * times == low * times + p * d * times;
  }

  lemma {:induction false} AccumulateEnd(b: nat, buffer: seq<nat>, r: seq<nat>, i: nat, length: nat, times: nat,
      digit: nat, carry: nat, v: nat)
    requires b > 1 && Holds(b, buffer, length, v) && v * times + digit < Pow(b, |buffer|)
    requires i <= |buffer| == |r| && DigitsBelow(b, r) && r[i..] == buffer[i..]
    requires LowFirst(b, r[..i]) + Pow(b, i) * carry == LowFirst(b, buffer[..i]) * times + digit
    requires !((carry != 0 || i < length) && i < |buffer|) && (i > 0 && carry == 0 && i >= length ==> r[i - 1] != 0)
    ensures carry == 0 && Holds(b, r, i, v * times + digit) && i >= length
  {
    hide LowFirst, Pow;
    LowFirstAt(b, buffer, i);
    LowFirstAt(b, r, i);
    assert i >= length;
    forall j | 0 <= j < |buffer[i..]| ensures buffer[i..][j] == 0 { assert buffer[i..][j] == buffer[i + j]; }
    LowFirstZeros(b, buffer[i..]);
    assert Pow(b, i) * 0 == 0;
    if carry != 0 {
      assert i == |buffer|;
      TimesAtLeast(Pow(b, i), carry);
    }
    forall j | i <= j < |r| ensures r[j] == 0 { assert r[i..][j - i] == buffer[i..][j - i]; }
  }

  lemma {:induction false} TimesAtLeast(p: nat, c: nat)
    requires c > 0
    ensures p * c >= p
  {
    MulAtLeast(c, p);
  }

  lemma {:induction false} EmptyBuffer(b: nat, n: nat)
    requires b > 1
    ensures Holds(b, Repeat(n, 0), 0, 0)
  {
    LowFirstZeros(b, Repeat(n, 0));
  }

  /** The digits of a held number, highest first, are the used part of the buffer read backwards. */
  lemma {:induction false} HeldDigits(b: nat, buffer: seq<nat>, length: nat, v: nat)
    requires b > 1 && Holds(b, buffer, length, v)
    ensures Sums.Reverse(buffer[..length]) == DigitsOf(b, v)
  {
    hide LowFirst, Pow;
    var s := buffer[..length];
    LowFirstAt(b, buffer, length);
    forall j | 0 <= j < |buffer[length..]|
        ensures buffer[length..][j] == 0 { assert buffer[length..][j] == buffer[length + j]; }
    LowFirstZeros(b, buffer[length..]);
    assert Pow(b, length) * 0 == 0;
    assert DigitsBelow(b, s);
    ReverseValue(b, s);
    DigitsOfValue(b, Sums.Reverse(s));
  }

  /** The number so far stays below what the buffer can hold. */
  lemma {:induction false} Fits(source: nat, target: nat, ds: seq<nat>, i: nat, size: nat)
    requires source > 1 && i < |ds| && DigitsBelow(source, ds) && Pow(source, |ds|) <= Pow(target, size)
    ensures ValueOf(source, ds[..i]) * source + ds[i] == ValueOf(source, ds[..i + 1]) < Pow(target, size)
  {
    assert ds[..i + 1][..i] == ds[..i];
    ValueOfBound(source, ds[..i + 1]);
    PowGrows(source, i + 1, |ds|);
  }

  // ---- Encoding ----

  method EncodeBase58(input: seq<nat>) returns (str: seq<nat>)
    requires Bytes(input)
    ensures str == Encoded(input)
  {
    hide LowFirst, Pow, DigitsOf, ValueOf;
    var zeroes := 0;
    while zeroes < |input| && input[zeroes] == 0
      invariant zeroes <= |input| && forall i {:trigger input[i]} :: 0 <= i < zeroes ==> input[i] == 0
    {
      zeroes := zeroes + 1;
    }
    LeadingUnique(0, input, zeroes);
    var rest := input[zeroes..];
    var size := |rest| * 138 / 100 + 1;
    BytesToBase58();
    EnoughDigits(256, 58, 138, 100, |rest|);
    var b58, length := Repeat(size, 0), 0;
    EmptyBuffer(58, size);
    EmptyValue(256);
    for i := 0 to |rest|
      invariant |b58| == size && Holds(58, b58, length, ValueOf(256, rest[..i]))
    {
      Fits(256, 58, rest, i, size);
      var carry;
      b58, length, carry := Accumulate(b58, 58, 256, rest[i], length, ValueOf(256, rest[..i]));
    }
    assert rest[..|rest|] == rest;
    HeldDigits(58, b58, length, ValueOf(256, rest));
    ValueOfDigits(58, ValueOf(256, rest));
    str := Repeat(zeroes, ONE) + Chars(Sums.Reverse(b58[..length]));
  }

  lemma {:induction false} EmptyValue(b: nat)
    ensures forall s: seq<nat> :: ValueOf(b, s[..0]) == 0
  {
  }

  // ---- Decoding ----

  lemma {:induction false} SpacesUnique(s: seq<nat>, n: nat)
    requires n <= |s| && (forall i {:trigger s[i]} :: 0 <= i < n ==> IsSpace(s[i])) && (n < |s| ==> !IsSpace(s[n]))
    ensures LeadingSpaces(s) == n
  {
  }

  lemma {:induction false} WordAtLeast(t: seq<nat>, n: nat)
    requires n <= |t| && forall i {:trigger t[i]} :: 0 <= i < n ==> !IsSpace(t[i])
    ensures n <= WordLength(t) && (n == |t| || IsSpace(t[n]) ==> n == WordLength(t))
  {
  }

  lemma {:induction false} MoreDigits(b: nat, v: nat, w: nat)
    requires b > 1 && v <= w
    ensures |DigitsOf(b, v)| <= |DigitsOf(b, w)|
  {
    if v > 0 {
      DivLess(v, b);
      DivLess(w, b);
      if v / b > w / b { MulMono(b, w / b + 1, v / b); }
      MoreDigits(b, v / b, w / b);
    }
  }

  lemma {:induction false} MoreValue(b: nat, s: seq<nat>, i: nat)
    requires b > 0 && i <= |s|
    ensures ValueOf(b, s[..i]) <= ValueOf(b, s)
    decreases |s|
  {
    if i == |s| {
      assert s[..i] == s;
    } else {
      var n := |s| - 1;
      MoreValue(b, s[..n], i);
      assert s[..n][..i] == s[..i];
      MulAtLeast(b, ValueOf(b, s[..n]));
      assert b * ValueOf(b, s[..n]) == ValueOf(b, s[..n]) * b;
    }
  }

  /** A beginning of the word that already stands for too many bytes. */
  lemma {:induction false} TooLong(core: seq<nat>, zeroes: nat, n: nat, max: int)
    requires ValidChars(core) && zeroes <= n <= |core|
    requires (forall i {:trigger core[i]} :: 0 <= i < zeroes ==> core[i] == ONE)
    requires n > zeroes ==> core[zeroes] != ONE
    requires ValidChars(core[zeroes..n]) && zeroes + |DigitsOf(256, ValueOf(58, DigitsIn(core[zeroes..n])))| > max
    ensures |BytesOf(core)| > max
  {
    hide DigitsOf, ValueOf, DigitOf;
    if n > zeroes {
      LeadingUnique(ONE, core, zeroes);
      assert ValidChars(core[zeroes..]);
      var ds := DigitsIn(core[zeroes..]);
      assert ds[..n - zeroes] == DigitsIn(core[zeroes..n]);
      MoreValue(58, ds, n - zeroes);
      MoreDigits(256, ValueOf(58, ds[..n - zeroes]), ValueOf(58, ds));
    } else {
      assert core[zeroes..n] == [];
      NoDigits(58);
      NoDigits(256);
      LeadingAtLeast(ONE, core, zeroes);
    }
  }

  lemma {:induction false} LeadingAtLeast(x: nat, s: seq<nat>, n: nat)
    requires n <= |s| && forall i {:trigger s[i]} :: 0 <= i < n ==> s[i] == x
    ensures n <= Leading(x, s)
  {
  }

  /** What has been read of the word: ones, then digits whose number is in the buffer. */
  ghost predicate Reading(t: seq<nat>, zeroes: nat, k: nat, b256: seq<nat>, length: nat, max: int) {
    && zeroes + k <= |t| && (forall i {:trigger t[i]} :: 0 <= i < zeroes ==> t[i] == ONE)
        && (zeroes < |t| ==> t[zeroes] != ONE)
    && (forall i {:trigger t[i]} :: 0 <= i < zeroes + k ==> !IsSpace(t[i])) && ValidChars(t[zeroes..zeroes + k])
    && Holds(256, b256, length, ValueOf(58, DigitsIn(t[zeroes..zeroes + k])))
        && Pow(58, |t| - zeroes) <= Pow(256, |b256|)
    && zeroes + length <= Limit(max)
  }

  lemma {:induction false} ReadNext(t: seq<nat>, zeroes: nat, k: nat, b256: seq<nat>, length: nat, max: int, d: nat)
      returns (v: nat)
    requires Reading(t, zeroes, k, b256, length, max) && zeroes + k < |t| && DigitOf(t[zeroes + k]) == d
    ensures Holds(256, b256, length, v) && v * 58 + d < Pow(256, |b256|) && ValidChars(t[zeroes..zeroes + k + 1])
    ensures v * 58 + d == ValueOf(58, DigitsIn(t[zeroes..zeroes + k + 1]))
  {
    hide DigitOf, LowFirst, IsSpace, Pow, Holds;
    var s, s' := t[zeroes..zeroes + k], t[zeroes..zeroes + k + 1];
    v := ValueOf(58, DigitsIn(s));
    assert s' == s + [t[zeroes + k]];
    assert ValidChars(s');
    var ds := DigitsIn(s');
    assert ds[..k] == DigitsIn(s) && ds[k] == d;
    ValueOfBound(58, ds);
    PowGrows(58, k + 1, |t| - zeroes);
  }

  lemma {:induction false} ReadOn(t: seq<nat>, zeroes: nat, k: nat, before: seq<nat>, b256: seq<nat>, length: nat,
      max: int, v: nat, d: nat)
    requires exists n :: Reading(t, zeroes, k, before, n, max)
    requires |b256| == |before| && zeroes + k < |t| && !IsSpace(t[zeroes + k]) && ValidChars(t[zeroes..zeroes + k + 1])
    requires v * 58 + d == ValueOf(58, DigitsIn(t[zeroes..zeroes + k + 1]))
    requires Holds(256, b256, length, v * 58 + d) && length + zeroes <= max
    ensures Reading(t, zeroes, k + 1, b256, length, max)
  {
    hide DigitOf, LowFirst, IsSpace, Pow, Holds, ValueOf;
    assert zeroes + (k + 1) == zeroes + k + 1;
  }

  lemma {:induction false} InvalidWord(str: seq<nat>, p: nat, t: seq<nat>, zeroes: nat, k: nat, b256: seq<nat>,
      length: nat, max: int)
    requires p == LeadingSpaces(str) && t == str[p..] && Reading(t, zeroes, k, b256, length, max)
    requires zeroes + k < |t| && !IsSpace(t[zeroes + k]) && DigitOf(t[zeroes + k]) == -1
    ensures Decoded(str, max) == None
  {
    hide DigitOf, LowFirst, IsSpace, Pow, Holds, ValueOf;
    WordAtLeast(t, zeroes + k + 1);
    assert Core(str)[zeroes + k] == t[zeroes + k];
  }

  method SkipSpaces(s: seq<nat>, from: nat) returns (q: nat)
    requires from <= |s|
    ensures from <= q <= |s| && (forall i {:trigger s[i]} :: from <= i < q ==> IsSpace(s[i]))
    ensures (q < |s| ==> !IsSpace(s[q]))
  {
    q := from;
    while q < |s| && IsSpace(s[q])
      invariant from <= q <= |s| && forall i {:trigger s[i]} :: from <= i < q ==> IsSpace(s[i])
    {
      q := q + 1;
    }
  }

  method DecodeBase58(str: seq<nat>, max: int) returns (ok: bool, vch: seq<nat>)
    ensures Decoded(str, max) == if ok then Some(vch) else None
  {
    hide LowFirst, Pow, DigitsOf, ValueOf, IsSpace, DigitOf, CharOf, Leading;
    vch, ok := [], false;
    if 0 in str { return; }
    var p := SkipSpaces(str, 0);
    SpacesUnique(str, p);
    var t := str[p..];
    var good, zeroes := CountOnes(str, p, t, max);
    if !good { return; }
    var size := (|t| - zeroes) * 733 / 1000 + 1;
    var b256, length, k;
    good, b256, length, k := ReadDigits(str, p, t, zeroes, size, max);
    if !good { return; }
    WordAtLeast(t, zeroes + k);
    var q := SkipSpaces(t, zeroes + k);
    ghost var w := zeroes + k;
    if q != |t| {
      assert After(str)[q - w] == t[q];
      return;
    }
    assert AllSpaces(After(str)) by {
      forall i | 0 <= i < |After(str)| ensures IsSpace(After(str)[i]) { assert After(str)[i] == t[w + i]; }
    }
    vch := Repeat(zeroes, 0) + Sums.Reverse(b256[..length]);
    Finished(str, p, t, zeroes, k, b256, length, max);
    ok := true;
  }

  /** Skip and count the leading ones. */
  method CountOnes(str: seq<nat>, ghost p: nat, t: seq<nat>, max: int) returns (good: bool, zeroes: nat)
    requires p == LeadingSpaces(str) && t == str[p..]
    ensures good ==>
            zeroes <= |t| && zeroes <= Limit(max) && (forall i {:trigger t[i]} :: 0 <= i < zeroes ==> t[i] == ONE)
            && (zeroes < |t| ==> t[zeroes] != ONE)
    ensures !good ==> Decoded(str, max) == None
  {
    hide DigitsOf, ValueOf, DigitOf, CharOf, Leading;
    zeroes := 0;
    while zeroes < |t| && t[zeroes] == ONE
      invariant zeroes <= |t| && zeroes <= Limit(max) && forall i {:trigger t[i]} :: 0 <= i < zeroes ==> t[i] == ONE
    {
      zeroes := zeroes + 1;
      if zeroes > max {
        WordAtLeast(t, zeroes);
        ghost var core := Core(str);
        assert forall i :: 0 <= i < zeroes ==> core[i] == t[i];
        if ValidChars(core) {
          LeadingAtLeast(ONE, core, zeroes);
        }
        return false, zeroes;
      }
    }
    good := true;
  }

  /** Read the rest of the word into the buffer. */
  method ReadDigits(str: seq<nat>, ghost p: nat, t: seq<nat>, zeroes: nat, size: nat, max: int)
      returns (good: bool, b256: seq<nat>, length: nat, k: nat)
    requires p == LeadingSpaces(str) && t == str[p..] && zeroes <= |t| && zeroes <= Limit(max)
    requires size == (|t| - zeroes) * 733 / 1000 + 1
    requires (forall i {:trigger t[i]} :: 0 <= i < zeroes ==> t[i] == ONE) && (zeroes < |t| ==> t[zeroes] != ONE)
    ensures good ==> Reading(t, zeroes, k, b256, length, max) && (zeroes + k < |t| ==> IsSpace(t[zeroes + k]))
    ensures !good ==> Decoded(str, max) == None
  {
    hide *;
    Base58ToBytes();
    EnoughDigits(58, 256, 733, 1000, |t| - zeroes);
    b256, length, k := Repeat(size, 0), 0, 0;
    ReadStart(t, zeroes, size, max, b256);
    while zeroes + k < |t| && !IsSpace(t[zeroes + k])
      invariant |b256| == size && Reading(t, zeroes, k, b256, length, max) && zeroes + k <= |t|
      decreases |t| - k
    {
      var d := DigitOf(t[zeroes + k]);
      if d == -1 {
        InvalidWord(str, p, t, zeroes, k, b256, length, max);
        return false, b256, length, k;
      }
      DigitRange(t[zeroes + k]);
      ghost var v := ReadNext(t, zeroes, k, b256, length, max, d);
      var carry;
      ghost var before := b256;
      b256, length, carry := Accumulate(b256, 256, 58, d, length, v);
      if length + zeroes > max {
        TooLongNow(str, p, t, zeroes, k, before, b256, length, max, v, d);
        return false, b256, length, k + 1;
      }
      ReadOn(t, zeroes, k, before, b256, length, max, v, d);
      k := k + 1;
    }
    good := true;
  }

  lemma {:induction false} DigitRange(c: nat)
    requires DigitOf(c) != -1
    ensures 0 <= DigitOf(c) < 58
  {
  }

  lemma {:induction false} ReadStart(t: seq<nat>, zeroes: nat, size: nat, max: int, b256: seq<nat>)
    requires zeroes <= |t| && zeroes <= Limit(max)
    requires (forall i {:trigger t[i]} :: 0 <= i < zeroes ==> t[i] == ONE)
    requires (zeroes < |t| ==> t[zeroes] != ONE)
    requires Pow(58, |t| - zeroes) <= Pow(256, size)
    requires b256 == Repeat(size, 0)
    ensures Reading(t, zeroes, 0, b256, 0, max) && |b256| == size
  {
    hide LowFirst, Pow;
    assert t[zeroes..zeroes] == [];
    EmptyBuffer(256, size);
    assert !IsSpace(ONE);
  }

  lemma {:induction false} TooLongNow(str: seq<nat>, p: nat, t: seq<nat>, zeroes: nat, k: nat, before: seq<nat>,
      b256: seq<nat>, length: nat, max: int, v: nat, d: nat)
    requires p == LeadingSpaces(str) && t == str[p..] && (exists n :: Reading(t, zeroes, k, before, n, max))
    requires zeroes + k < |t| && !IsSpace(t[zeroes + k])
    requires ValidChars(t[zeroes..zeroes + k + 1]) && v * 58 + d == ValueOf(58, DigitsIn(t[zeroes..zeroes + k + 1]))
    requires Holds(256, b256, length, v * 58 + d) && zeroes + length > max && |b256| == |before|
    ensures Decoded(str, max) == None
  {
    hide DigitsOf, ValueOf, DigitOf, Holds, LowFirst, Pow, IsSpace, DigitsIn, BytesOf, ValidChars, WordLength;
    var n := zeroes + k + 1;
    WordAtLeast(t, n);
    HeldLength(256, b256, length, v * 58 + d);
    FirstPositive(t, zeroes, n);
    PositiveLength(v * 58 + d);
    WordTooLong(t, WordLength(t), zeroes, n, Limit(max));
    assert Core(str) == t[..WordLength(t)];
  }

  lemma {:induction false} WordTooLong(t: seq<nat>, w: nat, zeroes: nat, n: nat, limit: nat)
    requires zeroes < n <= w <= |t| && (forall i {:trigger t[i]} :: 0 <= i < zeroes ==> t[i] == ONE) && t[zeroes] != ONE
    requires ValidChars(t[zeroes..n]) && zeroes + |DigitsOf(256, ValueOf(58, DigitsIn(t[zeroes..n])))| > limit
    ensures ValidChars(t[..w]) ==> |BytesOf(t[..w])| > limit
  {
    hide DigitsOf, ValueOf, DigitOf, DigitsIn, BytesOf, ValidChars;
    PrefixSlice(t, w, zeroes, n);
    if ValidChars(t[..w]) { TooLong(t[..w], zeroes, n, limit); }
  }

  lemma {:induction false} PrefixSlice(s: seq<nat>, w: nat, a: nat, b: nat)
    requires a <= b <= w <= |s|
    ensures s[..w][a..b] == s[a..b]
  {
  }

  lemma {:induction false} FirstPositive(t: seq<nat>, zeroes: nat, n: nat)
    requires zeroes < n <= |t| && t[zeroes] != ONE && ValidChars(t[zeroes..n])
    ensures ValueOf(58, DigitsIn(t[zeroes..n])) > 0
  {
    Alphabet();
    var s := t[zeroes..n];
    assert s[0] == t[zeroes];
    PositiveValue(58, DigitsIn(s));
  }

  lemma {:induction false} PositiveLength(v: nat)
    requires v > 0
    ensures |DigitsOf(256, v)| > 0
  {
  }

  lemma {:induction false} HeldLength(b: nat, buffer: seq<nat>, length: nat, v: nat)
    requires b > 1 && Holds(b, buffer, length, v)
    ensures |DigitsOf(b, v)| == length
  {
    HeldDigits(b, buffer, length, v);
  }

  lemma {:induction false} Finished(str: seq<nat>, p: nat, t: seq<nat>, zeroes: nat, k: nat, b256: seq<nat>,
      length: nat, max: int)
    requires 0 !in str && p == LeadingSpaces(str) && t == str[p..] && Reading(t, zeroes, k, b256, length, max)
    requires zeroes + k == WordLength(t) && AllSpaces(After(str))
    ensures Decoded(str, max) == Some(Repeat(zeroes, 0) + Sums.Reverse(b256[..length]))
  {
    hide DigitsOf, ValueOf, DigitOf, LowFirst, Pow;
    var core := Core(str);
    assert core == t[..zeroes + k];
    LeadingUnique(ONE, core, zeroes);
    assert core[zeroes..] == t[zeroes..zeroes + k];
    forall i | 0 <= i < |core| ensures DigitOf(core[i]) != -1 {
      if i >= zeroes { assert core[i] == t[zeroes..zeroes + k][i - zeroes]; } else { OneValid(); }
    }
    HeldDigits(256, b256, length, ValueOf(58, DigitsIn(t[zeroes..zeroes + k])));
    HeldLength(256, b256, length, ValueOf(58, DigitsIn(t[zeroes..zeroes + k])));
  }

  lemma {:induction false} OneValid()
    ensures DigitOf(ONE) == 0
  {
  }

  // ---- With a checksum ----

  const INT_MAX := 0x7FFF_FFFF

  /** The first four bytes of the hash of `b`. */
  function Checksum(hash: (seq<nat>, nat) -> nat, b: seq<nat>): seq<nat> {
    seq(4, i requires 0 <= i < 4 => hash(b, i) % 256)
  }

  /** The limit with room for the checksum, as far as an int holds it. */
  function WithChecksum(max: int): int {
    if max > INT_MAX - 4 then INT_MAX else max + 4
  }

  function CheckDecoded(hash: (seq<nat>, nat) -> nat, s: seq<nat>, max: int): Option<seq<nat>> {
    match Decoded(s, WithChecksum(max))
    case None => None
    case Some(r) =>
      if |r| < 4 || Checksum(hash, r[..|r| - 4]) != r[|r| - 4..] then None else Some(r[..|r| - 4])
  }

  method EncodeBase58Check(hash: (seq<nat>, nat) -> nat, input: seq<nat>) returns (str: seq<nat>)
    requires Bytes(input)
    ensures Bytes(input + Checksum(hash, input)) && str == Encoded(input + Checksum(hash, input))
  {
    str := EncodeBase58(input + Checksum(hash, input));
  }

  method DecodeBase58Check(hash: (seq<nat>, nat) -> nat, str: seq<nat>, max: int) returns (ok: bool, vch: seq<nat>)
    ensures CheckDecoded(hash, str, max) == if ok then Some(vch) else None
  {
    hide Decoded, Checksum;
    ok, vch := DecodeBase58(str, WithChecksum(max));
    if !ok || |vch| < 4 { return false, []; }
    var body := vch[..|vch| - 4];
    if Checksum(hash, body) != vch[|vch| - 4..] { return false, []; }
    vch := body;
  }

  /** What was encoded with a checksum is decoded exactly if the limit allows it. */
  lemma {:induction false} CheckRoundTrip(hash: (seq<nat>, nat) -> nat, b: seq<nat>, max: int)
    requires Bytes(b)
    ensures Bytes(b + Checksum(hash, b))
    ensures CheckDecoded(hash, Encoded(b + Checksum(hash, b)), max) == if |b| + 4 <= WithChecksum(max) then Some(b)
            else None
  {
    hide Decoded, Encoded;
    var c := b + Checksum(hash, b);
    assert Bytes(c);
    DecodeEncoded(c, WithChecksum(max));
    assert c[..|c| - 4] == b && c[|c| - 4..] == Checksum(hash, b);
  }

  /** Nothing else is decoded. */
  lemma {:induction false} CheckDecodedOnly(hash: (seq<nat>, nat) -> nat, s: seq<nat>, max: int)
    requires CheckDecoded(hash, s, max).Some?
    ensures var b := CheckDecoded(hash, s, max).value;
            Bytes(b + Checksum(hash, b)) && Core(s) == Encoded(b + Checksum(hash, b))
  {
    hide Decoded, Encoded, Core;
    var limit := WithChecksum(max);
    EncodeDecoded(s, limit);
    var r := Decoded(s, limit).value;
    assert r == r[..|r| - 4] + r[|r| - 4..];
  }
}
