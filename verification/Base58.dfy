/** Numbers as sequences of digits, the most significant first, and changing the base. */
module Radix {
  import opened Arith
  import opened Powers

  ghost predicate Digits(b: nat, ds: seq<nat>) {
    forall i :: 0 <= i < |ds| ==> ds[i] < b
  }

  function Value(b: nat, ds: seq<nat>): nat {
    if ds == [] then 0 else Value(b, ds[..|ds| - 1]) * b + ds[|ds| - 1]
  }

  /** The digits of a number without leading zeros; none for zero. */
  function ToDigits(b: nat, n: nat): (ds: seq<nat>)
    requires b >= 2
    ensures Digits(b, ds)
  {
    if n == 0 then [] else
      DivideSplits(n, b);
      MulMonotone(2, b, n / b);
      ToDigits(b, n / b) + [n % b]
  }

  function LeadingZeros(ds: seq<nat>): (z: nat)
    ensures z <= |ds| && (forall i :: 0 <= i < z ==> ds[i] == 0) && (z < |ds| ==> ds[z] != 0)
  {
    if ds == [] || ds[0] != 0 then 0 else 1 + LeadingZeros(ds[1..])
  }

  function Zeros(n: nat): (ds: seq<nat>)
    ensures |ds| == n && forall i :: 0 <= i < n ==> ds[i] == 0
  {
    seq(n, _ => 0)
  }

  /** As many leading zeros, and then the number written to the other base. */
  function Convert(a: nat, b: nat, ds: seq<nat>): (r: seq<nat>)
    requires b >= 2
    ensures Digits(b, r)
  {
    Zeros(LeadingZeros(ds)) + ToDigits(b, Value(a, ds))
  }

  // ----- Values -----

  lemma {:induction false} ValueBound(b: nat, ds: seq<nat>)
    requires Digits(b, ds)
    ensures Value(b, ds) < Pow(b, |ds|)
  {
    if ds != [] {
      var m := |ds| - 1;
      ValueBound(b, ds[..m]);
      MulMonotone(Value(b, ds[..m]) + 1, Pow(b, m), b);
      MulAdd(Value(b, ds[..m]), 1, b);
    }
  }

  /** The first digit counts by the number of digits after it. */
  lemma {:induction false} ValueFirst(b: nat, d: nat, ds: seq<nat>)
    ensures Value(b, [d] + ds) == d * Pow(b, |ds|) + Value(b, ds)
  {
    var all := [d] + ds;
    if ds == [] {
      assert all[..0] == [];
    } else {
      var m := |ds| - 1;
      assert all[..m + 1] == [d] + ds[..m];
      ValueFirst(b, d, ds[..m]);
      MulAdd(d * Pow(b, m), Value(b, ds[..m]), b);
      MulAssociate(d, Pow(b, m), b);
    }
  }

  lemma {:induction false} ZerosChangeNothing(b: nat, z: nat, ds: seq<nat>)
    ensures Value(b, Zeros(z) + ds) == Value(b, ds)
  {
    if z == 0 {
      assert Zeros(0) + ds == ds;
    } else {
      assert Zeros(z) + ds == [0] + (Zeros(z - 1) + ds);
      ValueFirst(b, 0, Zeros(z - 1) + ds);
      ZerosChangeNothing(b, z - 1, ds);
    }
  }

  lemma {:induction false} ValueOfDigits(b: nat, n: nat)
    requires b >= 2
    ensures Value(b, ToDigits(b, n)) == n
    ensures n > 0 ==> |ToDigits(b, n)| > 0 && ToDigits(b, n)[0] != 0
    decreases n
  {
    if n > 0 {
      DivideSplits(n, b);
      MulMonotone(2, b, n / b);
      ValueOfDigits(b, n / b);
      var ds := ToDigits(b, n);
      assert ds[..|ds| - 1] == ToDigits(b, n / b);
    }
  }

  /** Digits without a leading zero are the ones the number is written with. */
  lemma {:induction false} DigitsOfValue(b: nat, ds: seq<nat>)
    requires b >= 2 && Digits(b, ds) && (ds != [] ==> ds[0] != 0)
    ensures ToDigits(b, Value(b, ds)) == ds
  {
    if ds != [] {
      var m := |ds| - 1;
      var v := Value(b, ds[..m]);
      DigitsOfValue(b, ds[..m]);
      DivideUnique(v * b + ds[m], b, v);
      if v == 0 {
        assert ToDigits(b, 0) == [];
        assert m == 0;
      }
      assert ds == ds[..m] + [ds[m]];
    }
  }

  lemma ZerosOfConcat(z: nat, ds: seq<nat>)
    requires ds != [] ==> ds[0] != 0
    ensures LeadingZeros(Zeros(z) + ds) == z
  {
    var all := Zeros(z) + ds;
    var k := LeadingZeros(all);
    assert z < |all| ==> all[z] == ds[0];
  }

  /** Changing the base and changing back. */
  lemma ConvertBack(a: nat, b: nat, ds: seq<nat>)
    requires a >= 2 && b >= 2 && Digits(a, ds)
    ensures Convert(b, a, Convert(a, b, ds)) == ds
  {
    var z := LeadingZeros(ds);
    var rest := ds[z..];
    assert ds == Zeros(z) + rest;
    ZerosChangeNothing(a, z, rest);
    var n := Value(a, ds);
    DigitsOfValue(a, rest);
    ValueOfDigits(b, n);
    assert n == 0 ==> ToDigits(b, n) == [];
    ZerosOfConcat(z, ToDigits(b, n));
    ZerosChangeNothing(b, z, ToDigits(b, n));
  }

  // ----- Long multiplication in place -----

  /** "b = b * factor + carry", digit by digit from the back. What is left over does not fit. */
  method MultiplyAdd(ds: array<nat>, b: nat, factor: nat, addend: nat) returns (carry: nat)
    requires b >= 2 && Digits(b, ds[..])
    modifies ds
    ensures Digits(b, ds[..])
    ensures carry * Pow(b, ds.Length) + Value(b, ds[..]) == Value(b, old(ds[..])) * factor + addend
  {
    hide Value, Pow;
    ghost var was := ds[..];
    carry := addend;
    var i := ds.Length;
    assert was[i..] == [] && ds[i..] == [];
    NoDigits(b, factor, addend);
    while i > 0
      invariant i <= ds.Length && Digits(b, ds[..]) && ds[..i] == was[..i]
      invariant carry * Pow(b, |was| - i) + Value(b, ds[i..]) == Value(b, was[i..]) * factor + addend
    {
      ghost var rest := ds[i..];
      i := i - 1;
      var d := ds[i];
      assert d == ds[..i + 1][i];
      assert was[i..] == [d] + was[i + 1..];
      MultiplyStep(b, factor, addend, carry, d, rest, was[i + 1..]);
      var total := carry + factor * d;
      ds[i] := total % b;
      assert ds[i..] == [total % b] + rest;
      carry := total / b;
    }
    assert ds[0..] == ds[..] && was[0..] == was;
  }

  lemma NoDigits(b: nat, factor: nat, addend: nat)
    ensures addend * Pow(b, 0) + Value(b, []) == Value(b, []) * factor + addend
  {}

  /** One round of the loop, for the digits from here to the end. */
  lemma MultiplyStep(b: nat, factor: nat, addend: nat, carry: nat, d: nat, rest: seq<nat>, before: seq<nat>)
    requires b >= 2 && |rest| == |before|
    requires carry * Pow(b, |rest|) + Value(b, rest) == Value(b, before) * factor + addend
    ensures var total := carry + factor * d;
      total / b >= 0 && total / b * Pow(b, |rest| + 1) + Value(b, [total % b] + rest) == Value(b, [d] + before) * factor + addend
  {
    hide Value, Pow;
    var total := carry + factor * d;
    DivideSplits(total, b);
    PowNext(b, |rest|);
    ValueFirst(b, total % b, rest);
    ValueFirst(b, d, before);
    var all, all' := [total % b] + rest, [d] + before;
    CarryStep(b, carry, factor, d, Pow(b, |rest|), Value(b, rest), Value(b, before), addend,
              Pow(b, |rest| + 1), Value(b, all), Value(b, all'));
  }

  lemma CarryStep(b: nat, carry: nat, factor: nat, d: nat, p: nat, done: nat, before: nat, addend: nat,
                  p': nat, done': nat, before': nat)
    requires b >= 2 && carry * p + done == before * factor + addend
    requires p' == b * p && done' == (carry + factor * d) % b * p + done && before' == d * p + before
    ensures (carry + factor * d) / b >= 0 && (carry + factor * d) / b * p' + done' == before' * factor + addend
  {
    var q, r := (carry + factor * d) / b, (carry + factor * d) % b;
    DivideSplits(carry + factor * d, b);
    CarryAlgebra(b, q, r, carry, factor, d, p);
    MulAdd(d * p, before, factor);
  }

  lemma CarryAlgebra(b: int, q: int, r: int, carry: int, factor: int, d: int, p: int)
    requires carry + factor * d == q * b + r
    ensures q * (b * p) + r * p == carry * p + d * p * factor
  {
    MulAssociate(q, b, p);
    MulAdd(q * b, r, p);
    MulAdd(carry, factor * d, p);
    MulAssociate(factor, d, p);
  }

  /** Nothing is left over when the result fits. */
  lemma NoCarry(b: nat, carry: nat, value: nat, n: nat, size: nat, bound: nat)
    requires b >= 2 && carry * Pow(b, size) + value == n && n < bound && bound <= Pow(b, size)
    ensures carry == 0 && value == n
  {
    if carry > 0 {
      MulMonotone(1, carry, Pow(b, size));
    }
  }

  /** The digits without the leading zeros. */
  method Significant(ds: array<nat>, b: nat) returns (r: seq<nat>)
    requires b >= 2 && Digits(b, ds[..])
    ensures r == ToDigits(b, Value(b, ds[..]))
  {
    var it := 0;
    while it < ds.Length && ds[it] == 0
      invariant it <= ds.Length && forall k :: 0 <= k < it ==> ds[k] == 0
    {
      it := it + 1;
    }
    r := ds[it..];
    assert ds[..] == Zeros(it) + r;
    ZerosChangeNothing(b, it, r);
    DigitsOfValue(b, r);
  }
}

/** base58.cpp. */
module Base58 {
  import opened Arith
  import opened Powers
  import opened Prelude
  import opened Radix

  const ALPHABET := "123456789" + "ABCDEFGH" + "JKLMN" + "PQRSTUVWXYZ" + "abcdefghijk" + "mnopqrstuvwxyz"

  function Letter(d: nat): char
    requires d < 58
  {
    ALPHABET[d]
  }

  /** The alphabet is ascending, so no character occurs twice. */
  lemma LettersAscend(i: nat, j: nat)
    requires i < j < 58
    ensures Letter(i) < Letter(j)
  {
    LetterIs(i);
    LetterIs(j);
  }

  lemma LetterIs(d: nat)
    requires d < 58
    ensures Letter(d) as int == d + if d < 9 then '1' as int else if d < 17 then 'A' as int - 9 else if d < 22 then 'J' as int - 17
      else if d < 33 then 'P' as int - 22 else if d < 44 then 'a' as int - 33 else 'm' as int - 44
  {
    hide Letter;
    if d < 17 { EarlyLetter(d); } else if d < 33 { MiddleLetter(d); } else { LateLetter(d); }
  }

  lemma EarlyLetter(d: nat)
    requires d < 17
    ensures Letter(d) as int == d + if d < 9 then '1' as int else 'A' as int - 9
  {}

  lemma MiddleLetter(d: nat)
    requires 17 <= d < 33
    ensures Letter(d) as int == d + if d < 22 then 'J' as int - 17 else 'P' as int - 22
  {}

  lemma LateLetter(d: nat)
    requires 33 <= d < 58
    ensures Letter(d) as int == d + if d < 44 then 'a' as int - 33 else 'm' as int - 44
  {}

  /** isspace in the C locale. */
  predicate IsSpace(c: char) {
    c == ' ' || '\t' <= c <= '\r'
  }

  /** strchr in the alphabet: the character's index, 58 if it is not there. */
  function IndexOf(c: char, i: nat): (r: nat)
    requires i <= 58
    ensures i <= r <= 58 && (r < 58 ==> Letter(r) == c) && forall k :: i <= k < r ==> Letter(k) != c
    decreases 58 - i
  {
    if i == 58 || Letter(i) == c then i else IndexOf(c, i + 1)
  }

  predicate InAlphabet(c: char) {
    IndexOf(c, 0) < 58
  }

  predicate AllLetters(s: string) {
    forall i :: 0 <= i < |s| ==> InAlphabet(s[i])
  }

  predicate AllSpaces(s: string) {
    forall i :: 0 <= i < |s| ==> IsSpace(s[i])
  }

  function Indices(s: string): (r: seq<nat>)
    requires AllLetters(s)
    ensures |r| == |s| && Digits(58, r)
  {
    var r := seq(|s|, i requires 0 <= i < |s| => IndexOf(s[i], 0));
    assert forall i :: 0 <= i < |s| ==> InAlphabet(s[i]) && r[i] < 58;
    r
  }

  function Letters(ds: seq<nat>): (s: string)
    requires Digits(58, ds)
    ensures |s| == |ds|
  {
    seq(|ds|, i requires 0 <= i < |ds| => Letter(ds[i]))
  }

  lemma IndexOfLetter(d: nat)
    requires d < 58
    ensures IndexOf(Letter(d), 0) == d
  {
    var i := IndexOf(Letter(d), 0);
    if i < d { LettersAscend(i, d); }
  }

  lemma LettersOfIndices(s: string)
    requires AllLetters(s)
    ensures Letters(Indices(s)) == s
  {
    forall i | 0 <= i < |s| ensures Letters(Indices(s))[i] == s[i] { assert InAlphabet(s[i]); }
  }

  lemma IndicesOfLetters(ds: seq<nat>)
    requires Digits(58, ds)
    ensures AllLetters(Letters(ds)) && Indices(Letters(ds)) == ds
  {
    forall i | 0 <= i < |ds| ensures InAlphabet(Letters(ds)[i]) && IndexOf(Letters(ds)[i], 0) == ds[i] {
      IndexOfLetter(ds[i]);
    }
  }

  lemma LettersAreNoSpaces(c: char)
    requires InAlphabet(c)
    ensures !IsSpace(c)
  {
    LetterIs(IndexOf(c, 0));
  }

  // ----- What encoding and decoding compute -----

  function Encode(v: seq<Byte>): string {
    Letters(Convert(256, 58, v))
  }

  /** The first place from i on that is no space. */
  function SpacesEnd(s: string, i: nat): (r: nat)
    requires i <= |s|
    ensures i <= r <= |s| && (forall k :: i <= k < r ==> IsSpace(s[k])) && (r < |s| ==> !IsSpace(s[r]))
    decreases |s| - i
  {
    if i < |s| && IsSpace(s[i]) then SpacesEnd(s, i + 1) else i
  }

  /** The first space from i on. */
  function WordEnd(s: string, i: nat): (r: nat)
    requires i <= |s|
    ensures i <= r <= |s| && (forall k :: i <= k < r ==> !IsSpace(s[k])) && (r < |s| ==> IsSpace(s[r]))
    decreases |s| - i
  {
    if i < |s| && !IsSpace(s[i]) then WordEnd(s, i + 1) else i
  }

  /** What stands between the spaces in front and the next space. */
  function Word(s: string): string {
    s[SpacesEnd(s, 0)..WordEnd(s, SpacesEnd(s, 0))]
  }

  predicate NothingAfterWord(s: string) {
    SpacesEnd(s, WordEnd(s, SpacesEnd(s, 0))) == |s|
  }

  function Decode(s: string): Option<seq<Byte>> {
    if !AllLetters(Word(s)) || !NothingAfterWord(s) then None
    else Some(Convert(58, 256, Indices(Word(s))))
  }

  // ----- Round trips -----

  /** Letters between spaces. */
  ghost predicate Splits(s: string, i: int, j: int) {
    0 <= i <= j <= |s| && AllSpaces(s[..i]) && AllLetters(s[i..j]) && AllSpaces(s[j..])
  }

  lemma WordOfSplit(s: string, i: int, j: int)
    requires Splits(s, i, j)
    ensures Word(s) == s[i..j] && NothingAfterWord(s)
  {
    hide Letter, IndexOf, SpacesEnd, WordEnd, InAlphabet, IsSpace;
    forall k | 0 <= k < i ensures IsSpace(s[k]) { assert s[k] == s[..i][k]; }
    forall k | i <= k < j ensures !IsSpace(s[k]) && InAlphabet(s[k]) {
      assert InAlphabet(s[i..j][k - i]);
      LettersAreNoSpaces(s[k]);
    }
    forall k | j <= k < |s| ensures IsSpace(s[k]) { assert s[k] == s[j..][k - j]; }
    if i == j {
      assert SpacesEnd(s, 0) == |s|;
      assert Word(s) == "" == s[i..j];
    } else {
      assert !IsSpace(s[i]);
      assert SpacesEnd(s, 0) == i;
      assert j < |s| ==> IsSpace(s[j]);
      assert WordEnd(s, i) == j && SpacesEnd(s, j) == |s|;
    }
  }

  /** Accepted are exactly the strings of letters with spaces before and after; the spaces do not matter. */
  lemma DecodeAccepts(s: string)
    ensures Decode(s).Some? <==> exists i, j :: Splits(s, i, j)
    ensures forall i, j :: Splits(s, i, j) ==> Decode(s) == Some(Convert(58, 256, Indices(s[i..j])))
  {
    hide Letter, IndexOf, SpacesEnd, WordEnd, InAlphabet, IsSpace, Convert, Indices;
    if Decode(s).Some? {
      assert Splits(s, SpacesEnd(s, 0), WordEnd(s, SpacesEnd(s, 0)));
    }
    forall i, j | Splits(s, i, j) ensures Decode(s) == Some(Convert(58, 256, Indices(s[i..j]))) {
      WordOfSplit(s, i, j);
    }
  }

  lemma DecodeLetters(s: string)
    requires AllLetters(s)
    ensures Decode(s) == Some(Convert(58, 256, Indices(s)))
  {
    assert s[0..|s|] == s && s[..0] == "" && s[|s|..] == "";
    assert Splits(s, 0, |s|);
    DecodeAccepts(s);
  }

  lemma DecodeOfEncode(v: seq<Byte>)
    ensures AllLetters(Encode(v)) && Decode(Encode(v)) == Some(v)
  {
    var ds := Convert(256, 58, v);
    IndicesOfLetters(ds);
    DecodeLetters(Encode(v));
    ConvertBack(256, 58, v);
  }

  lemma EncodeOfDecode(s: string)
    requires AllLetters(s)
    ensures Decode(s).Some? && Encode(Decode(s).value) == s
  {
    DecodeLetters(s);
    ConvertBack(58, 256, Indices(s));
    LettersOfIndices(s);
  }

  // ----- The checksum -----

  /** The first four bytes of the 256-bit hash, as it lies in memory. */
  function Check4(hash: seq<Byte> -> Hash256, v: seq<Byte>): (c: seq<Byte>)
    ensures |c| == 4
  {
    var n := hash(v);
    [n % 256, n / 256 % 256, n / 65536 % 256, n / 16777216 % 256]
  }

  function EncodeCheck(hash: seq<Byte> -> Hash256, v: seq<Byte>): string {
    Encode(v + Check4(hash, v))
  }

  function DecodeCheck(hash: seq<Byte> -> Hash256, s: string): Option<seq<Byte>> {
    match Decode(s)
    case None => None
    case Some(w) =>
      if |w| < 4 || w[|w| - 4..] != Check4(hash, w[..|w| - 4]) then None else Some(w[..|w| - 4])
  }

  lemma DecodeOfEncodeCheck(hash: seq<Byte> -> Hash256, v: seq<Byte>)
    ensures DecodeCheck(hash, EncodeCheck(hash, v)) == Some(v)
  {
    var w := v + Check4(hash, v);
    DecodeOfEncode(w);
    assert w[..|w| - 4] == v && w[|w| - 4..] == Check4(hash, v);
  }

  /** The only strings that pass the check are encodings with a checksum, up to the spaces around them. */
  lemma CheckedIsEncoded(hash: seq<Byte> -> Hash256, s: string, v: seq<Byte>)
    ensures DecodeCheck(hash, s) == Some(v) <==> exists i, j :: Splits(s, i, j) && s[i..j] == EncodeCheck(hash, v)
  {
    hide Decode, Encode, Indices, Convert, InAlphabet, IsSpace, Check4;
    DecodeAccepts(s);
    if DecodeCheck(hash, s) == Some(v) {
      var i, j :| Splits(s, i, j);
      var w := Decode(s).value;
      assert w == v + Check4(hash, v);
      DecodeLetters(s[i..j]);
      EncodeOfDecode(s[i..j]);
    }
    if i, j :| Splits(s, i, j) && s[i..j] == EncodeCheck(hash, v) {
      DecodeLetters(s[i..j]);
      DecodeOfEncodeCheck(hash, v);
    }
  }

  // ----- The loops -----

  lemma IndicesGrow(s: string, a: nat, b: nat)
    requires a <= b < |s| && AllLetters(s[a..b]) && InAlphabet(s[b])
    ensures AllLetters(s[a..b + 1]) && Indices(s[a..b + 1]) == Indices(s[a..b]) + [IndexOf(s[b], 0)]
    ensures Value(58, Indices(s[a..b + 1])) == Value(58, Indices(s[a..b])) * 58 + IndexOf(s[b], 0)
  {
    assert s[a..b + 1] == s[a..b] + [s[b]];
    var word := s[a..b + 1];
    forall i | 0 <= i < |word| ensures InAlphabet(word[i]) { if i < b - a { assert InAlphabet(s[a..b][i]); } }
    var all := Indices(s[a..b + 1]);
    assert all[..|all| - 1] == Indices(s[a..b]);
  }

  lemma Pow58To71()
    ensures Pow(58, 71) <= Pow(256, 52)
  {
    hide Pow;
    Squares(58);
    Squares(256);
    PowAdd(58, 4, 2);
    PowAdd(58, 6, 1);
    PowAdd(58, 64, 7);
    PowAdd(256, 32, 16);
    PowAdd(256, 48, 4);
  }

  lemma Pow58To6()
    ensures Pow(58, 6) <= Pow(256, 5)
  {
    hide Pow;
    Squares(58);
    Squares(256);
    PowAdd(58, 4, 2);
    PowAdd(256, 4, 1);
  }

  lemma Pow256To8()
    ensures Pow(256, 8) <= Pow(58, 11)
  {
    hide Pow;
    Squares(58);
    Squares(256);
    PowAdd(58, 8, 2);
    PowAdd(58, 10, 1);
  }

  lemma Pow256To4()
    ensures Pow(256, 4) <= Pow(58, 6)
  {
    hide Pow;
    Squares(58);
    Squares(256);
    PowAdd(58, 4, 2);
  }

  lemma Pow58Fits()
    ensures Pow(58, 1000) <= Pow(256, 733)
  {
    Pow58To71();
    Pow58To6();
    PowOfPow(58, 71, 14);
    PowOfPow(256, 52, 14);
    BaseGrows(Pow(58, 71), Pow(256, 52), 14);
    PowAdd(58, 71 * 14, 6);
    PowAdd(256, 52 * 14, 5);
    MulMonotone(Pow(58, 994), Pow(256, 728), Pow(58, 6));
    MulMonotone(Pow(58, 6), Pow(256, 5), Pow(256, 728));
  }

  lemma Pow256Fits()
    ensures Pow(256, 100) <= Pow(58, 138)
  {
    Pow256To8();
    Pow256To4();
    PowOfPow(256, 8, 12);
    PowOfPow(58, 11, 12);
    BaseGrows(Pow(256, 8), Pow(58, 11), 12);
    PowAdd(256, 96, 4);
    PowAdd(58, 132, 6);
    MulMonotone(Pow(256, 96), Pow(58, 132), Pow(256, 4));
    MulMonotone(Pow(256, 4), Pow(58, 6), Pow(58, 132));
  }

  /** The buffer of the decoder holds any number that fits in so many letters. */
  lemma DecodeBufferFits(m: nat)
    ensures m * 733 / 1000 >= 0 && Pow(58, m) <= Pow(256, m * 733 / 1000 + 1)
  {
    hide Pow;
    Pow58Fits();
    RoundedLogarithm(58, 256, 733, 1000, m);
  }

  lemma EncodeBufferFits(m: nat)
    ensures m * 138 / 100 >= 0 && Pow(256, m) <= Pow(58, m * 138 / 100 + 1)
  {
    hide Pow;
    Pow256Fits();
    RoundedLogarithm(256, 58, 138, 100, m);
  }

  lemma ZeroArray(b: nat, ds: seq<nat>)
    requires b >= 2 && forall i :: 0 <= i < |ds| ==> ds[i] == 0
    ensures Value(b, ds) == 0 && Digits(b, ds)
  {
    assert ds == Zeros(|ds|) + [];
    ZerosChangeNothing(b, |ds|, []);
  }

  /** One digit more, in place; its assertion that nothing is left over is proved here. */
  method AppendDigit(buffer: array<nat>, b: nat, a: nat, digit: nat, ghost before: seq<nat>, ghost m: nat)
    requires a >= 2 && b >= 2 && Digits(b, buffer[..]) && Digits(a, before) && digit < a
    requires Value(b, buffer[..]) == Value(a, before) && |before| < m && Pow(a, m) <= Pow(b, buffer.Length)
    modifies buffer
    ensures Digits(b, buffer[..]) && Value(b, buffer[..]) == Value(a, before + [digit])
  {
    hide Value, Pow;
    ValueBound(a, before + [digit]);
    ValueLast(a, before, digit);
    PowGrows(a, |before| + 1, m);
    var carry := MultiplyAdd(buffer, b, a, digit);
    NoCarry(b, carry, Value(b, buffer[..]), Value(a, before + [digit]), buffer.Length, Pow(a, |before| + 1));
    assert carry == 0;
  }

  lemma ValueLast(b: nat, ds: seq<nat>, d: nat)
    ensures Value(b, ds + [d]) == Value(b, ds) * b + d
  {
    assert (ds + [d])[..|ds|] == ds;
  }

  method EncodeBase58(v: seq<Byte>) returns (str: string)
    ensures str == Encode(v)
  {
    hide Value, Pow, ToDigits, Letter;
    var zeroes := 0;
    while zeroes < |v| && v[zeroes] == 0
      invariant zeroes <= |v| && forall k :: 0 <= k < zeroes ==> v[k] == 0
    {
      zeroes := zeroes + 1;
    }
    var rest: seq<nat> := v[zeroes..];
    EncodeBufferFits(|rest|);
    var b58 := new nat[|rest| * 138 / 100 + 1](_ => 0);
    ZeroArray(58, b58[..]);
    ZeroArray(256, []);
    var i := 0;
    while i < |rest|
      invariant i <= |rest| && Digits(58, b58[..]) && Value(58, b58[..]) == Value(256, rest[..i])
    {
      assert rest[..i + 1] == rest[..i] + [rest[i]];
      AppendDigit(b58, 58, 256, rest[i], rest[..i], |rest|);
      i := i + 1;
    }
    assert rest[..i] == rest;
    var digits := Significant(b58, 58);
    assert v == Zeros(zeroes) + rest;
    ZerosOfConcat(zeroes, rest);
    ZerosChangeNothing(256, zeroes, rest);
    str := seq(zeroes, _ => '1') + Letters(digits);
    OnesAndLetters(zeroes, digits);
  }

  lemma OnesAndLetters(z: nat, ds: seq<nat>)
    requires Digits(58, ds)
    ensures Digits(58, Zeros(z) + ds) && Letters(Zeros(z) + ds) == seq(z, _ => '1') + Letters(ds)
  {
    LetterIs(0);
  }

  /** A C string ends at its first zero byte. */
  method SkipSpaces(psz: string, start: nat) returns (i: nat)
    requires start <= |psz|
    ensures i == SpacesEnd(psz, start)
  {
    i := start;
    while i < |psz| && IsSpace(psz[i])
      invariant i <= |psz| && SpacesEnd(psz, start) == SpacesEnd(psz, i)
    {
      i := i + 1;
    }
  }

  method DecodeBase58(psz: string) returns (r: Option<seq<Byte>>)
    requires '\0' !in psz
    ensures r == Decode(psz)
  {
    hide Value, Pow, ToDigits, Letter, IndexOf, Indices, AllLetters, IsSpace, Word;
    var i := SkipSpaces(psz, 0);
    ghost var start := i;
    var zeroes := 0;
    OneIsFirst();
    while i < |psz| && psz[i] == '1'
      invariant start <= i <= |psz| && zeroes == i - start && forall k :: start <= k < i ==> psz[k] == '1'
    {
      i := i + 1;
      zeroes := zeroes + 1;
    }
    ghost var word := i;
    var m := |psz| - i;
    DecodeBufferFits(m);
    var b256 := new nat[m * 733 / 1000 + 1](_ => 0);
    ZeroArray(256, b256[..]);
    ZeroArray(58, []);
    NoLetters(psz[word..i]);
    while i < |psz| && !IsSpace(psz[i])
      invariant word <= i <= |psz| && AllLetters(psz[word..i]) && Digits(256, b256[..])
      invariant Value(256, b256[..]) == Value(58, Indices(psz[word..i]))
      invariant forall k :: start <= k < i ==> !IsSpace(psz[k])
    {
      var ch := IndexOf(psz[i], 0);
      if ch == 58 {
        NoLetter(psz, start, i);
        return None;
      }
      IndicesGrow(psz, word, i);
      AppendDigit(b256, 256, 58, ch, Indices(psz[word..i]), m);
      i := i + 1;
    }
    WordIs(psz, start, i);
    OnesInFront(psz, start, word, i);
    i := SkipSpaces(psz, i);
    if i < |psz| {
      return None;
    }
    var digits := Significant(b256, 256);
    r := Some(Zeros(zeroes) + digits);
  }

  lemma NoLetters(s: string)
    requires s == ""
    ensures AllLetters(s) && Indices(s) == []
  {}

  lemma OneIsFirst()
    ensures InAlphabet('1') && IndexOf('1', 0) == 0 && !IsSpace('1')
  {
    LetterIs(0);
    IndexOfLetter(0);
  }

  lemma WordIs(s: string, start: nat, i: nat)
    requires start == SpacesEnd(s, 0) && start <= i <= |s|
    requires forall k :: start <= k < i ==> !IsSpace(s[k])
    requires i < |s| ==> IsSpace(s[i])
    ensures WordEnd(s, start) == i && Word(s) == s[start..i]
  {
    hide Letter, IndexOf, SpacesEnd, WordEnd, InAlphabet, IsSpace;
  }

  lemma NoLetter(s: string, start: nat, i: nat)
    requires start == SpacesEnd(s, 0) && start <= i < |s|
    requires forall k :: start <= k <= i ==> !IsSpace(s[k])
    requires !InAlphabet(s[i])
    ensures !AllLetters(Word(s))
  {
    hide Letter, IndexOf, SpacesEnd, WordEnd, InAlphabet, IsSpace;
    assert Word(s)[i - start] == s[i];
  }

  /** The ones in front are the leading zeros. */
  lemma LettersInFront(s: string, start: nat, word: nat, i: nat)
    requires start <= word <= i <= |s| && AllLetters(s[word..i])
    requires forall k :: start <= k < word ==> s[k] == '1'
    ensures AllLetters(s[start..i])
    ensures IndexOf('1', 0) == 0 && forall k :: 0 <= k < i - word ==> (IndexOf(s[word..i][k], 0) == 0 <==> s[word..i][k] == '1')
  {
    OneIsFirst();
    LetterIs(0);
    forall k | 0 <= k < i - start ensures InAlphabet(s[start..i][k]) {
      if k >= word - start { assert s[start..i][k] == s[word..i][k - (word - start)]; }
    }
  }

  lemma OnesInFront(s: string, start: nat, word: nat, i: nat)
    requires start <= word <= i <= |s| && AllLetters(s[word..i])
    requires forall k :: start <= k < word ==> s[k] == '1'
    requires word < i ==> s[word] != '1'
    ensures AllLetters(s[start..i])
    ensures LeadingZeros(Indices(s[start..i])) == word - start
    ensures Value(58, Indices(s[start..i])) == Value(58, Indices(s[word..i]))
  {
    hide Value, LeadingZeros, IndexOf;
    LettersInFront(s, start, word, i);
    assert s[start..i] == s[start..word] + s[word..i];
    var rest := Indices(s[word..i]);
    assert Indices(s[start..i]) == Zeros(word - start) + rest;
    ZerosOfConcat(word - start, rest);
    ZerosChangeNothing(58, word - start, rest);
  }

  method EncodeBase58Check(hash: seq<Byte> -> Hash256, vchIn: seq<Byte>) returns (str: string)
    ensures str == EncodeCheck(hash, vchIn)
  {
    str := EncodeBase58(vchIn + Check4(hash, vchIn));
  }

  method DecodeBase58Check(hash: seq<Byte> -> Hash256, psz: string) returns (r: Option<seq<Byte>>)
    requires '\0' !in psz
    ensures r == DecodeCheck(hash, psz)
  {
    var d := DecodeBase58(psz);
    if d.None? || |d.value| < 4 {
      return None;
    }
    var n := |d.value| - 4;
    if d.value[n..] != Check4(hash, d.value[..n]) {
      return None;
    }
    r := Some(d.value[..n]);
  }

  // ----- Versioned data -----

  /** Version bytes and payload in a checked string; None where SetString fails. */
  function Parsed(hash: seq<Byte> -> Hash256, s: string, nVersionBytes: nat): Option<(seq<Byte>, seq<Byte>)> {
    match DecodeCheck(hash, s)
    case None => None
    case Some(v) => if |v| < nVersionBytes then None else Some((v[..nVersionBytes], v[nVersionBytes..]))
  }

  /** What ToString writes is read back, with the same number of version bytes, and nothing else is accepted. */
  lemma ParsedIsWritten(hash: seq<Byte> -> Hash256, s: string, version: seq<Byte>, data: seq<Byte>)
    ensures Parsed(hash, s, |version|) == Some((version, data))
      <==> exists i, j :: Splits(s, i, j) && s[i..j] == EncodeCheck(hash, version + data)
  {
    CheckedIsEncoded(hash, s, version + data);
    var v := version + data;
    assert v[..|version|] == version && v[|version|..] == data;
    if Parsed(hash, s, |version|) == Some((version, data)) {
      assert DecodeCheck(hash, s).value == v;
    }
  }

  class CBase58Data {
    var vchVersion: seq<Byte>
    var vchData: seq<Byte>

    constructor ()
      ensures vchVersion == [] && vchData == []
    {
      vchVersion, vchData := [], [];
    }

    method SetString(hash: seq<Byte> -> Hash256, psz: string, nVersionBytes: nat) returns (ok: bool)
      requires '\0' !in psz
      modifies this
      ensures ok <==> Parsed(hash, psz, nVersionBytes).Some?
      ensures (vchVersion, vchData) == if ok then Parsed(hash, psz, nVersionBytes).value else ([], [])
    {
      var vchTemp := DecodeBase58Check(hash, psz);
      if vchTemp.None? || |vchTemp.value| < nVersionBytes {
        vchData := [];
        vchVersion := [];
        return false;
      }
      vchVersion := vchTemp.value[..nVersionBytes];
      vchData := vchTemp.value[nVersionBytes..];
      return true;
    }

    method ToString(hash: seq<Byte> -> Hash256) returns (str: string)
      ensures str == EncodeCheck(hash, vchVersion + vchData)
    {
      str := EncodeBase58Check(hash, vchVersion + vchData);
    }
  }
}
