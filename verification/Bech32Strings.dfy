/** Encoding and decoding Bech32 and Bech32m strings (src/bech32.cpp). */
module Bech32Strings {
  import opened Options
  import opened Bech32s

  const SEPARATOR := '1'

  const CHARSET := "qpzry9x8gf2tvdw0s3jn54khce6mua7l"

  // ---- Characters ----

  predicate IsLower(c: char) {
    'a' <= c <= 'z'
  }

  predicate IsUpper(c: char) {
    'A' <= c <= 'Z'
  }

  function LowerCase(c: char): char {
    if IsUpper(c) then (c as int + 32) as char else c
  }

  /** CHARSET_REV, row by row: the values of the characters from '0' on, and of the letters from '@' and '`' on. */
  const DIGIT_VALUES: seq<int> := [15, -1, 10, 17, 21, 20, 26, 30, 7, 5, -1, -1, -1, -1, -1, -1]
  const LETTER_VALUES: seq<int> := [
    -1, 29, -1, 24, 13, 25, 9, 8, 23, -1, 18, 22, 31, 27, 19, -1,
    1, 0, 3, 16, 11, 28, 12, 14, 6, 4, 2, -1, -1, -1, -1, -1]

  /** The table entry of a character code. */
  function TableValue(k: nat): (r: int)
    ensures -1 <= r < 32
  {
    if 48 <= k < 64 then ValueBounds(k - 48); DIGIT_VALUES[k - 48]
    else if 64 <= k < 96 then ValueBounds(k - 64); LETTER_VALUES[k - 64]
    else if 96 <= k < 128 then ValueBounds(k - 96); LETTER_VALUES[k - 96]
    else -1
  }

  lemma ValueBounds(k: nat)
    ensures k < 16 ==> -1 <= DIGIT_VALUES[k] < 32
    ensures k < 32 ==> -1 <= LETTER_VALUES[k] < 32
  {
  }

  /** The two tables agree: a digit or letter has a value only if it, in lower case, is the character of it. */
  lemma DigitPlace(k: nat)
    requires k < 16 && DIGIT_VALUES[k] != -1
    ensures 0 <= DIGIT_VALUES[k] < 32 && CHARSET[DIGIT_VALUES[k]] as int == 48 + k
  {
  }

  lemma LetterPlace(k: nat)
    requires k < 32 && LETTER_VALUES[k] != -1
    ensures 0 <= LETTER_VALUES[k] < 32 && CHARSET[LETTER_VALUES[k]] as int == 96 + k && 0 < k < 27
  {
  }

  /** And the character of a value has that value. */
  lemma ValuePlace(v: nat)
    requires v < 32
    ensures var c := CHARSET[v] as int;
            (48 <= c < 64 && DIGIT_VALUES[c - 48] == v) || (96 <= c < 128 && LETTER_VALUES[c - 96] == v)
  {
  }

  function CharsetRev(c: char): Option<bv5> {
    var r := TableValue(c as int);
    if r == -1 then None else Some(r as bv5)
  }

  function CharOf(v: bv5): char {
    CHARSET[v as int]
  }

  lemma CharsetPlain(i: nat)
    requires i < 32
    ensures 33 as char <= CHARSET[i] <= 126 as char && !IsUpper(CHARSET[i]) && CHARSET[i] != SEPARATOR
  {
  }

  lemma FiveBits(i: nat)
    requires i < 32
    ensures (i as bv5) as int == i
  {
  }

  lemma ThereAndBack(v: bv5)
    ensures 0 <= v as int < 32 && (v as int) as bv5 == v
  {
  }

  lemma RevOfChar(v: bv5)
    ensures CharsetRev(CharOf(v)) == Some(v)
  {
    ThereAndBack(v);
    ValuePlace(v as int);
  }

  lemma CharOfRev(c: char)
    requires CharsetRev(c).Some?
    ensures CharOf(CharsetRev(c).value) == LowerCase(c)
  {
    var k := c as int;
    FiveBits(TableValue(k));
    if 48 <= k < 64 {
      DigitPlace(k - 48);
      DigitsLow(k);
    } else if 64 <= k < 96 {
      LetterPlace(k - 64);
    } else if 96 <= k < 128 {
      LetterPlace(k - 96);
    }
  }

  lemma DigitsLow(k: nat)
    requires 48 <= k < 64 && DIGIT_VALUES[k - 48] != -1
    ensures k < 58
  {
  }

  // ---- Strings ----

  /** Printable, and not both cases. */
  predicate Clean(s: string) {
    && (forall i {:trigger s[i]} :: 0 <= i < |s| ==> 33 as char <= s[i] <= 126 as char)
    && (forall i, j {:trigger s[i], s[j]} :: 0 <= i < |s| && 0 <= j < |s| ==> !(IsLower(s[i]) && IsUpper(s[j])))
  }

  /** The positions with an unprintable character or a letter of the other case than the first letter's. */
  method CheckCharacters(str: string) returns (errors: seq<nat>)
    ensures errors == [] <==> Clean(str)
    ensures forall k {:trigger errors[k]} :: 0 <= k < |errors| ==> errors[k] < |str|
  {
    var lower, upper := false, false;
    errors := [];
    for i := 0 to |str|
      invariant !(lower && upper)
      invariant forall k {:trigger errors[k]} :: 0 <= k < |errors| ==> errors[k] < |str|
      invariant lower ==> exists k {:trigger str[k]} :: 0 <= k < i && IsLower(str[k])
      invariant upper ==> exists k {:trigger str[k]} :: 0 <= k < i && IsUpper(str[k])
      invariant errors == [] ==> forall k {:trigger str[k]} :: 0 <= k < i ==> 33 as char <= str[k] <= 126 as char
      invariant errors == [] ==>
              forall k {:trigger str[k]} :: 0 <= k < i ==> (IsLower(str[k]) ==> lower) && (IsUpper(str[k]) ==> upper)
      invariant errors != [] ==> !Clean(str)
    {
      var c := str[i];
      if IsLower(c) {
        if upper {
          errors := errors + [i];
        } else {
          lower := true;
        }
      } else if IsUpper(c) {
        if lower {
          errors := errors + [i];
        } else {
          upper := true;
        }
      } else if c < 33 as char || c > 126 as char {
        errors := errors + [i];
      }
    }
  }

  predicate NoUpper(s: string) {
    forall i {:trigger s[i]} :: 0 <= i < |s| ==> !IsUpper(s[i])
  }

  function Lowered(s: string): (r: string)
    ensures |r| == |s|
  {
    seq(|s|, i requires 0 <= i < |s| => LowerCase(s[i]))
  }

  function Text(v: seq<bv5>): (r: string)
    ensures |r| == |v|
  {
    seq(|v|, i requires 0 <= i < |v| => CharOf(v[i]))
  }

  lemma TextInjective(v: seq<bv5>, w: seq<bv5>)
    requires Text(v) == Text(w)
    ensures v == w
  {
    hide CharsetRev, CharOf;
    forall i | 0 <= i < |v|
      ensures v[i] == w[i]
    {
      assert Text(v)[i] == Text(w)[i];
      RevOfChar(v[i]);
      RevOfChar(w[i]);
    }
  }

  lemma TextPlain(v: seq<bv5>, i: nat)
    requires i < |v|
    ensures 33 as char <= Text(v)[i] <= 126 as char && !IsUpper(Text(v)[i]) && Text(v)[i] != SEPARATOR
  {
    CharsetPlain(v[i] as int);
  }

  /** The string form of a payload under a human-readable part. */
  function Encoded(e: Encoding, hrp: string, values: seq<bv5>): string
    requires SevenBit(hrp)
  {
    hrp + [SEPARATOR] + Text(values + Checksum(e, hrp, values))
  }

  method Encode(e: Encoding, hrp: string, values: seq<bv5>) returns (r: string)
    requires NoUpper(hrp) && SevenBit(hrp)
    ensures r == Encoded(e, hrp, values)
  {
    hide Checksum, Checks, CharOf;
    r := hrp + [SEPARATOR];
    for i := 0 to |values|
      invariant r == hrp + [SEPARATOR] + Text(values[..i])
    {
      assert Text(values[..i + 1]) == Text(values[..i]) + [CharOf(values[i])];
      r := r + [CharOf(values[i])];
    }
    assert values[..|values|] == values;
    var sum := CreateChecksum(e, hrp, values);
    for i := 0 to |sum|
      invariant r == hrp + [SEPARATOR] + Text(values + sum[..i])
    {
      assert Text(values + sum[..i + 1]) == Text(values + sum[..i]) + [CharOf(sum[i])];
      r := r + [CharOf(sum[i])];
    }
    assert sum[..|sum|] == sum;
  }

  /** What it is for a string to encode a payload: up to the case of its letters, it is the payload's
      string form. */
  predicate Encodes(str: string, limit: nat, e: Encoding, hrp: string, values: seq<bv5>) {
    && |str| <= limit
    && Clean(str)
    && hrp != ""
    && SevenBit(hrp)
    && Lowered(str) == Encoded(e, hrp, values)
  }

  /** The last separator of such a string follows the human-readable part. */
  lemma SeparatorPlace(str: string, hrp: string, v: seq<bv5>)
    requires Lowered(str) == hrp + [SEPARATOR] + Text(v)
    ensures |str| == |hrp| + 1 + |v| && str[|hrp|] == SEPARATOR
    ensures forall i {:trigger str[i]} :: |hrp| < i < |str| ==> str[i] != SEPARATOR
    ensures Lowered(str[..|hrp|]) == hrp && Lowered(str[|hrp| + 1..]) == Text(v)
  {
    hide CharOf;
    assert Lowered(str)[|hrp|] == SEPARATOR;
    forall i {:trigger str[i]} | |hrp| < i < |str|
      ensures str[i] != SEPARATOR
    {
      assert Lowered(str)[i] == Text(v)[i - |hrp| - 1];
      TextPlain(v, i - |hrp| - 1);
    }
    assert Lowered(str[..|hrp|]) == Lowered(str)[..|hrp|];
    assert Lowered(str[|hrp| + 1..]) == Lowered(str)[|hrp| + 1..];
  }

  /** A string encodes at most one payload. */
  lemma EncodesOnce(str: string, limit: nat, e: Encoding, hrp: string, values: seq<bv5>, e': Encoding, hrp': string,
      values': seq<bv5>)
    requires Encodes(str, limit, e, hrp, values) && Encodes(str, limit, e', hrp', values')
    ensures e == e' && hrp == hrp' && values == values'
  {
    hide Checksum, Checks, Text, Lowered, Clean, SevenBit;
    var v, v' := values + Checksum(e, hrp, values), values' + Checksum(e', hrp', values');
    SeparatorPlace(str, hrp, v);
    SeparatorPlace(str, hrp', v');
    assert |hrp| == |hrp'|;
    TextInjective(v, v');
    assert values == v[..|v| - CHECKSUM_SIZE] && values' == v'[..|v| - CHECKSUM_SIZE];
    ChecksumOnly(e, hrp, values, Checksum(e, hrp, values));
    ChecksumOnly(e', hrp, values, Checksum(e', hrp, values));
    OneEncoding(e, e', hrp, v);
  }

  lemma OneEncoding(e: Encoding, e': Encoding, hrp: string, v: seq<bv5>)
    requires SevenBit(hrp) && Checks(e, hrp, v) && Checks(e', hrp, v)
    ensures e == e'
  {
  }

  /** Position p holds the last separator. */
  predicate LastSeparator(str: string, p: int) {
    0 <= p < |str| && str[p] == SEPARATOR && forall i {:trigger str[i]} :: p < i < |str| ==> str[i] != SEPARATOR
  }

  method FindSeparator(str: string) returns (p: int)
    ensures p == -1 || LastSeparator(str, p)
    ensures p == -1 ==> forall i {:trigger str[i]} :: 0 <= i < |str| ==> str[i] != SEPARATOR
  {
    p := |str| - 1;
    while p >= 0 && str[p] != SEPARATOR
      invariant -1 <= p < |str|
      invariant forall i {:trigger str[i]} :: p < i < |str| ==> str[i] != SEPARATOR
    {
      p := p - 1;
    }
  }

  lemma UpperAndLower(k: nat)
    ensures 65 <= k <= 90 ==> TableValue(k) == TableValue(k + 32)
  {
  }

  lemma RevIgnoresCase(c: char)
    ensures CharsetRev(c) == CharsetRev(LowerCase(c))
  {
    hide TableValue;
    UpperAndLower(c as int);
  }

  lemma CleanParts(str: string, p: nat)
    requires Clean(str) && p <= |str|
    ensures SevenBit(str[..p]) && SevenBit(Lowered(str[..p]))
  {
    forall i {:trigger str[..p][i]} | 0 <= i < p
      ensures str[..p][i] < 128 as char && Lowered(str[..p])[i] < 128 as char
    {
      assert str[..p][i] == str[i];
    }
  }

  /** The symbols of the characters after the separator. */
  predicate Reads(str: string, p: nat, symbols: seq<bv5>) {
    |str| == p + 1 + |symbols| && forall i {:trigger symbols[i]} :: 0 <= i < |symbols| ==>
        CharsetRev(str[p + 1 + i]) == Some(symbols[i])
  }

  lemma ReadsText(str: string, p: nat, symbols: seq<bv5>)
    requires Reads(str, p, symbols)
    ensures Lowered(str[p + 1..]) == Text(symbols)
  {
    hide CharsetRev, CharOf, LowerCase;
    forall i | 0 <= i < |symbols|
      ensures Lowered(str[p + 1..])[i] == Text(symbols)[i]
    {
      assert CharsetRev(str[p + 1 + i]) == Some(symbols[i]);
      CharOfRev(str[p + 1 + i]);
    }
  }

  lemma TextReads(str: string, p: nat, v: seq<bv5>)
    requires p < |str| && Lowered(str[p + 1..]) == Text(v)
    ensures Reads(str, p, v)
  {
    hide CharsetRev, CharOf, LowerCase;
    forall i {:trigger v[i]} | 0 <= i < |v|
      ensures CharsetRev(str[p + 1 + i]) == Some(v[i])
    {
      assert Lowered(str[p + 1..])[i] == Text(v)[i];
      RevOfChar(v[i]);
      RevIgnoresCase(str[p + 1 + i]);
    }
  }

  /** Such a string has its parts where the decoder looks for them. */
  lemma EncodesParts(str: string, limit: nat, e: Encoding, hrp: string, values: seq<bv5>)
    requires Encodes(str, limit, e, hrp, values)
    ensures LastSeparator(str, |hrp|) && 0 < |hrp| && |hrp| + CHECKSUM_SIZE < |str|
    ensures Lowered(str[..|hrp|]) == hrp
    ensures Reads(str, |hrp|, values + Checksum(e, hrp, values))
    ensures Checks(e, hrp, values + Checksum(e, hrp, values))
  {
    hide Checksum, Checks, Text, Lowered, Clean, Reads;
    var v := values + Checksum(e, hrp, values);
    SeparatorPlace(str, hrp, v);
    TextReads(str, |hrp|, v);
    ChecksumOnly(e, hrp, values, Checksum(e, hrp, values));
  }

  lemma PartsEncode(str: string, limit: nat, p: nat, symbols: seq<bv5>, e: Encoding, hrp: string, values: seq<bv5>,
      check: seq<bv5>)
    requires |str| <= limit && Clean(str) && 0 < p && p < |str| && str[p] == SEPARATOR
    requires Reads(str, p, symbols) && symbols == values + check && |check| == CHECKSUM_SIZE
    requires hrp == Lowered(str[..p]) && SevenBit(hrp) && Checks(e, hrp, symbols)
    ensures Encodes(str, limit, e, hrp, values)
  {
    hide Checksum, Checks, Text, Clean, Reads, SevenBit;
    ReadsText(str, p, symbols);
    ChecksumOnly(e, hrp, values, check);
    assert LowerCase(SEPARATOR) == SEPARATOR;
    assert Lowered(str) == Lowered(str[..p]) + [SEPARATOR] + Lowered(str[p + 1..]);
  }

  datatype DecodeResult = DecodeResult(encoding: Encoding, hrp: string, data: seq<bv5>)

  /** Decoding finds the payload that the string encodes, and fails exactly when there is none. */
  method Decode(str: string, limit: nat) returns (r: Option<DecodeResult>)
    ensures forall e, hrp, values :: r == Some(DecodeResult(e, hrp, values)) <==> Encodes(str, limit, e, hrp, values)
  {
    hide Checksum, Checks, Clean, SevenBit, Lowered, CharsetRev, Text;
    forall e, hrp, values | Encodes(str, limit, e, hrp, values)
      ensures LastSeparator(str, |hrp|) && 0 < |hrp| && |hrp| + CHECKSUM_SIZE < |str|
      ensures Reads(str, |hrp|, values + Checksum(e, hrp, values))
    {
      EncodesParts(str, limit, e, hrp, values);
    }
    var errors := CheckCharacters(str);
    if errors != [] {
      return None;
    }
    var pos := FindSeparator(str);
    if |str| > limit {
      return None;
    }
    if pos == -1 || pos == 0 || pos + CHECKSUM_SIZE >= |str| {
      return None;
    }
    var symbols: seq<bv5> := [];
    for i := 0 to |str| - 1 - pos
      invariant |symbols| == i
      invariant forall k {:trigger symbols[k]} :: 0 <= k < i ==> CharsetRev(str[pos + 1 + k]) == Some(symbols[k])
    {
      var rev := CharsetRev(str[i + pos + 1]);
      forall e, hrp, values | Encodes(str, limit, e, hrp, values)
        ensures rev.Some?
      {
        assert |hrp| == pos;
        ReadAt(str, pos, i, values + Checksum(e, hrp, values));
      }
      if rev.None? {
        return None;
      }
      symbols := symbols + [rev.value];
    }
    var hrp := LowerPrefix(str, pos);
    CleanParts(str, pos);
    var enc := VerifyChecksum(hrp, symbols);
    var n := |symbols| - CHECKSUM_SIZE;
    assert symbols == symbols[..n] + symbols[n..];
    forall e', hrp', values' | Encodes(str, limit, e', hrp', values')
      ensures enc == Some(e') && hrp' == hrp && values' == symbols[..n]
    {
      EncodesParts(str, limit, e', hrp', values');
      assert |hrp'| == pos;
      ReadsOnce(str, pos, symbols, values' + Checksum(e', hrp', values'));
    }
    if enc.None? {
      return None;
    }
    PartsEncode(str, limit, pos, symbols, enc.value, hrp, symbols[..n], symbols[n..]);
    return Some(DecodeResult(enc.value, hrp, symbols[..n]));
  }

  lemma ReadAt(str: string, p: nat, i: nat, v: seq<bv5>)
    requires Reads(str, p, v) && i < |v|
    ensures CharsetRev(str[i + p + 1]) == Some(v[i])
  {
    hide CharsetRev;
    assert CharsetRev(str[p + 1 + i]) == Some(v[i]);
  }

  lemma ReadsOnce(str: string, p: nat, v: seq<bv5>, w: seq<bv5>)
    requires Reads(str, p, v) && Reads(str, p, w)
    ensures v == w
  {
    hide CharsetRev;
    forall i | 0 <= i < |v|
      ensures v[i] == w[i]
    {
    }
  }

  method LowerPrefix(str: string, n: nat) returns (r: string)
    requires n <= |str|
    ensures r == Lowered(str[..n])
  {
    r := "";
    for i := 0 to n
      invariant r == Lowered(str[..i])
    {
      assert Lowered(str[..i + 1]) == Lowered(str[..i]) + [LowerCase(str[i])];
      r := r + [LowerCase(str[i])];
    }
  }

  /** An encoded payload is decoded to itself: for every printable, lower-case and non-empty
      human-readable part, and every payload within the limit. */
  lemma DecodeEncoded(e: Encoding, hrp: string, values: seq<bv5>, limit: nat)
    requires hrp != "" && Clean(hrp) && NoUpper(hrp) && SevenBit(hrp)
    requires |hrp| + 1 + |values| + CHECKSUM_SIZE <= limit
    ensures Encodes(Encoded(e, hrp, values), limit, e, hrp, values)
  {
    hide Checksum, CharOf;
    var v := values + Checksum(e, hrp, values);
    var str := Encoded(e, hrp, values);
    forall i {:trigger str[i]} | 0 <= i < |str|
      ensures 33 as char <= str[i] <= 126 as char && !IsUpper(str[i])
    {
      if i > |hrp| {
        TextPlain(v, i - |hrp| - 1);
        assert str[i] == Text(v)[i - |hrp| - 1];
      }
    }
    assert Lowered(str) == str;
  }
}
