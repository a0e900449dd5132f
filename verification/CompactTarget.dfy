/** The compact format for difficulty targets: SetCompact and GetCompact. */
module CompactTarget {
  import opened Arith
  import opened ArithUint256
  import opened Limbs
  import opened Powers

  const SIGN := 0x80_0000
  const EXPONENT := 0x100_0000

  function Exponent(nCompact: nat): nat { nCompact / EXPONENT }

  function Mantissa(nCompact: nat): nat { nCompact % SIGN }

  predicate SignBit(nCompact: nat) { nCompact / SIGN % 2 == 1 }

  datatype Target = Target(value: nat, negative: bool, overflow: bool)

  /** With an exponent below 3 the code shifts the mantissa down first, and its flags look at the result. */
  function Word(nCompact: nat): nat {
    var nSize := Exponent(nCompact);
    if nSize <= 3 then ShiftDown(Mantissa(nCompact), 8 * (3 - nSize)) else Mantissa(nCompact)
  }

  function Decoded(nCompact: nat): Target {
    var nSize := Exponent(nCompact);
    var nWord := Word(nCompact);
    Target(
      if nSize <= 3 then nWord else nWord * Pow(2, 8 * (nSize - 3)) % TWO256(),
      nWord != 0 && SignBit(nCompact),
      nWord != 0 && (nSize > 34 || (nWord > 0xff && nSize > 33) || (nWord > 0xffff && nSize > 32)))
  }

  function BitLength(x: nat): (r: nat)
    ensures r == 0 <==> x == 0
    ensures x > 0 ==> Pow(2, r - 1) <= x < Pow(2, r)
  {
    if x == 0 then 0 else
      if x > 1 then
        DivideSplits(x, 2);
        1 + BitLength(x / 2)
      else 1
  }

  /** The size in bytes, and the three highest bytes. */
  function Top(x: nat): (nat, nat) {
    var nSize := (BitLength(x) + 7) / 8;
    if nSize <= 3 then (nSize, x % TWO64 * Pow(2, 8 * (3 - nSize)) % TWO64 % B)
    else (nSize, ShiftDown(x, 8 * (nSize - 3)) % TWO64 % B)
  }

  /** A mantissa whose highest bit would be the sign is shortened by a byte. */
  function Normalized(x: nat): (nat, nat) {
    var (nSize, nCompact) := Top(x);
    if nCompact / SIGN % 2 == 1 then (nSize + 1, nCompact / 256) else (nSize, nCompact)
  }

  function Encoded(x: nat, fNegative: bool): nat {
    var (nSize, nCompact) := Normalized(x);
    nSize * EXPONENT + nCompact + if fNegative && nCompact % SIGN != 0 then SIGN else 0
  }

  // ----- Powers of 256 -----

  lemma BytePower(k: nat)
    ensures Pow(2, 8 * k) == Pow(256, k) && Pow(256, k) > 0
  {
    hide Pow;
    Squares(2);
    PowOfPow(2, 8, k);
    PowPositive(256, k);
  }

  lemma Range()
    ensures TWO256() == Pow(256, 32)
  {
    hide Pow;
    Squares(256);
    PowOfPow(256, 4, 8);
  }

  lemma SmallPowers()
    ensures Pow(256, 0) == 1 && Pow(256, 1) == 256 && Pow(256, 2) == 65536 && Pow(256, 3) == EXPONENT
  {}

  lemma BitLengthUnique(x: nat, r: nat)
    requires r == 0 <==> x == 0
    requires x > 0 ==> Pow(2, r - 1) <= x < Pow(2, r)
    ensures r == BitLength(x)
  {
    var r' := BitLength(x);
    if r < r' { PowGrows(2, r, r' - 1); }
    if r' < r { PowGrows(2, r', r - 1); }
  }

  /** x has as many bytes as its bits, rounded up. */
  lemma ByteLength(x: nat, n: nat)
    requires x > 0 && n == (BitLength(x) + 7) / 8
    ensures n > 0 && Pow(256, n - 1) <= x < Pow(256, n)
  {
    hide Pow, BitLength;
    var r := BitLength(x);
    BytePower(n);
    BytePower(n - 1);
    PowGrows(2, r, 8 * n);
    PowGrows(2, 8 * (n - 1), r - 1);
  }

  // ----- What the fields of an encoded target are -----

  /**
    A normal exponent and mantissa: the mantissa is what is left of x above exponent - 3 bytes (below,
    for exponents under 3, with zero bytes appended), and as long as the sign bit allows.
    */
  ghost predicate Normal(x: nat, size: nat, mantissa: nat) {
    Pow(256, size) > 0 && mantissa == x * EXPONENT / Pow(256, size) && 0x8000 <= mantissa < SIGN
  }

  lemma ScaleDown(x: nat, a: nat, c: nat)
    requires a > 0 && c > 0
    ensures a * c > 0 && x * c / (a * c) == x / a && x / a >= 0
  {
    DivideSplits(x, a);
    MulMonotone(1, a, c);
    var q := x / a;
    MulAssociate(q, a, c);
    MulMonotone(q * a, x, c);
    MulMonotone(x + 1, q * a + a, c);
    MulAdd(x, 1, c);
    MulAdd(q * a, a, c);
    DivideUnique(x * c, a * c, q);
  }

  lemma TopIs(x: nat)
    requires 0 < x < TWO256()
    ensures var (n, c) := Top(x);
      0 < n <= 32 && Pow(256, n) > 0 && c == x * EXPONENT / Pow(256, n) && 0x1_0000 <= c < EXPONENT
  {
    hide Pow, BitLength;
    var n := (BitLength(x) + 7) / 8;
    ByteLength(x, n);
    Range();
    if n > 32 { PowGrows(256, 32, n - 1); }
    SmallPowers();
    BytePower(n);
    PowNext(256, n - 1);
    TopBounds(x, n, Pow(256, n), Pow(256, n - 1));
    if n <= 3 { TopOfSmall(x, n); } else { TopOfLarge(x, n); }
  }

  lemma TopOfSmall(x: nat, n: nat)
    requires n <= 3 && Pow(256, n) > 0 && x < Pow(256, n)
    ensures x % TWO64 * Pow(2, 8 * (3 - n)) % TWO64 % B == x * EXPONENT / Pow(256, n)
  {
    hide Pow;
    SmallPowers();
    BytePower(3 - n);
    PowAdd(256, 3 - n, n);
    TopSmall(x, Pow(256, 3 - n), Pow(256, n));
  }

  lemma TopOfLarge(x: nat, n: nat)
    requires n > 3 && Pow(256, n) > 0 && x * EXPONENT / Pow(256, n) < EXPONENT
    ensures Pow(2, 8 * (n - 3)) > 0 && x / Pow(2, 8 * (n - 3)) % TWO64 % B == x * EXPONENT / Pow(256, n)
  {
    hide Pow;
    SmallPowers();
    BytePower(n - 3);
    PowAdd(256, n - 3, 3);
    ScaleDown(x, Pow(256, n - 3), EXPONENT);
  }

  lemma TopBounds(x: nat, n: nat, p: nat, p': nat)
    requires p == 256 * p' && p' <= x < p
    ensures p > 0 && 0x1_0000 <= x * EXPONENT / p < EXPONENT
  {
    DivideSplits(x * EXPONENT, p);
    var q := x * EXPONENT / p;
    if q < 0x1_0000 { MulMonotone(q + 1, 0x1_0000, p); MulAdd(q, 1, p); }
    if q >= EXPONENT { MulMonotone(EXPONENT, q, p); }
  }

  lemma TopSmall(x: nat, a: nat, p: nat)
    requires a > 0 && p > 0 && x < p && a * p == EXPONENT
    ensures x * a < EXPONENT && x < TWO64 && x * a >= 0
    ensures x % TWO64 * a % TWO64 % B == x * EXPONENT / p
  {
    MulMonotone(x + 1, p, a);
    MulAdd(x, 1, a);
    MulMonotone(1, a, p);
    assert p * a == a * p;
    MulAssociate(x, a, p);
    ModMultiple(x * a, p);
  }

  /** GetCompact's mantissa and exponent are normal, so both its assertions hold. */
  lemma NormalizedIsNormal(x: nat)
    requires x < TWO256()
    ensures var (size, mantissa) := Normalized(x);
      && mantissa < SIGN && size <= 33
      && (x == 0 ==> size == 0 && mantissa == 0)
      && (x > 0 ==> Normal(x, size, mantissa))
  {
    if x == 0 {
      assert Top(0) == (0, 0);
    } else {
      NormalizedPositive(x);
    }
  }

  lemma NormalizedPositive(x: nat)
    requires 0 < x < TWO256()
    ensures var (size, mantissa) := Normalized(x); mantissa < SIGN && size <= 33 && Normal(x, size, mantissa)
  {
    hide Pow, Top;
    TopIs(x);
    var (n, c) := Top(x);
    PowNext(256, n);
    Shortened(x * EXPONENT, Pow(256, n), c);
  }

  lemma Shortened(x: nat, p: nat, c: nat)
    requires p > 0 && c == x / p && 0x1_0000 <= c < EXPONENT
    ensures c / SIGN % 2 == 1 ==> c / 256 == x / (256 * p) && 0x8000 <= c / 256 < SIGN
    ensures c / SIGN % 2 != 1 ==> c < SIGN
  {
    TopBit(c, SIGN);
    DivideFurther(x, p);
  }

  lemma DivideFurther(x: nat, p: nat)
    requires p > 0
    ensures x / p >= 0 && x / (256 * p) == x / p / 256
  {
    DivideSplits(x, p);
    var q := x / p;
    DivideSplits(q, 256);
    var q' := q / 256;
    MulAssociate(q', 256, p);
    MulMonotone(q' * 256, q, p);
    MulMonotone(q + 1, q' * 256 + 256, p);
    MulAdd(q, 1, p);
    MulAdd(q' * 256, 256, p);
    DivideUnique(x, 256 * p, q');
  }

  /** For each number only one exponent makes the mantissa normal. */
  lemma NormalUnique(x: nat, s: nat, m: nat, s': nat, m': nat)
    requires Normal(x, s, m) && Normal(x, s', m') && s <= s'
    ensures s == s' && m == m'
  {
    hide Pow;
    var p, p' := Pow(256, s), Pow(256, s');
    DivideSplits(x * EXPONENT, p);
    DivideSplits(x * EXPONENT, p');
    if s < s' {
      PowNext(256, s);
      PowGrows(256, s + 1, s');
      MulMonotone(0x8000, m', p');
      MulMonotone(m + 1, SIGN, p);
      MulAdd(m, 1, p);
      assert false;
    }
  }

  lemma FieldsOf(x: nat)
    requires x < TWO256()
    ensures var n := Encoded(x, false); var (size, mantissa) := Normalized(x);
      n < B && Exponent(n) == size && Mantissa(n) == mantissa && !SignBit(n)
  {
    hide Normalized;
    NormalizedIsNormal(x);
    var (size, mantissa) := Normalized(x);
    DivideUnique(size * EXPONENT + mantissa, EXPONENT, size);
    DivideUnique(size * EXPONENT + mantissa, SIGN, 2 * size);
  }

  // ----- The overflow flag -----

  /** A full mantissa times its power of 256. */
  function Meant(nCompact: nat): nat
    requires Exponent(nCompact) >= 3
  {
    Mantissa(nCompact) * Pow(256, Exponent(nCompact) - 3)
  }

  /** The flag is set exactly when the number does not fit in 256 bits. */
  lemma OverflowIsExact(nCompact: nat)
    ensures Decoded(nCompact).overflow <==> Exponent(nCompact) >= 3 && Meant(nCompact) >= TWO256()
    ensures Exponent(nCompact) >= 3 && !Decoded(nCompact).overflow ==> Decoded(nCompact).value == Meant(nCompact)
  {
    hide Pow;
    var size := Exponent(nCompact);
    if size >= 3 {
      var m, e := Mantissa(nCompact), size - 3;
      BytePower(e);
      BytePower(0);
      SmallPowers();
      DivideUnique(m, 1, m);
      FitsWhen(m, e);
      if m * Pow(256, e) < TWO256() { DivideUnique(m * Pow(256, e), TWO256(), 0); }
    }
  }

  lemma FitsWhen(m: nat, e: nat)
    requires m < SIGN
    ensures m * Pow(256, e) >= TWO256() <==> m != 0 && (e > 31 || (m > 0xff && e > 30) || (m > 0xffff && e > 29))
  {
    hide Pow;
    Range();
    SmallPowers();
    PowPositive(256, e);
    if m == 0 {
      PowPositive(256, 32);
    } else if m <= 0xff {
      FitsBelow(m, e, 1, 256, 0);
    } else if m <= 0xffff {
      FitsBelow(m, e, 256, 65536, 1);
    } else {
      FitsBelow(m, e, 65536, EXPONENT, 2);
    }
  }

  /** A mantissa of k + 1 bytes reaches the range exactly with 32 - k more bytes. */
  lemma FitsBelow(m: nat, e: nat, lo: nat, hi: nat, k: nat)
    requires lo == Pow(256, k) && hi == Pow(256, k + 1) && lo <= m < hi && k <= 2
    ensures m * Pow(256, e) >= Pow(256, 32) <==> e >= 32 - k
  {
    hide Pow;
    PowPositive(256, e);
    PowAdd(256, k, e);
    PowAdd(256, k + 1, e);
    if e >= 32 - k {
      PowGrows(256, 32, k + e);
      MulMonotone(lo, m, Pow(256, e));
    } else {
      PowGrows(256, k + 1 + e, 32);
      MulMonotone(m + 1, hi, Pow(256, e));
      MulAdd(m, 1, Pow(256, e));
    }
  }

  // ----- Encoding and decoding -----

  /** The target after a round trip, scaled like the mantissa: mantissa and exponent, nothing below. */
  lemma DecodedNormal(x: nat, y: nat, n: nat, size: nat, mantissa: nat)
    requires x < TWO256() && Normal(x, size, mantissa)
    requires Exponent(n) == size && Mantissa(n) == mantissa && y == Decoded(n).value
    ensures !Decoded(n).overflow && y <= x && (x - y) * 0x8000 <= x && Normal(y, size, mantissa)
  {
    hide Pow;
    var p := Pow(256, size);
    SmallPowers();
    DivideSplits(x * EXPONENT, p);
    OverflowIsExact(n);
    if size >= 3 {
      PowAdd(256, size - 3, 3);
      PowPositive(256, size - 3);
      var q := Pow(256, size - 3);
      MulAssociate(mantissa, q, EXPONENT);
      DecodedLarge(x, mantissa, q, p);
    } else {
      BytePower(3 - size);
      PowAdd(256, 3 - size, size);
      DecodedSmall(x, mantissa, Pow(256, 3 - size), p);
    }
  }

  lemma DecodedLarge(x: nat, m: nat, q: nat, p: nat)
    requires q > 0 && p == q * EXPONENT && m == x * EXPONENT / p && 0x8000 <= m
    ensures m * q <= x && (x - m * q) * 0x8000 <= x && m * q * EXPONENT / p == m
  {
    ScaleDown(x, q, EXPONENT);
    DivideSplits(x, q);
    MulMonotone(0x8000, m, q);
    ScaleDown(m * q, q, EXPONENT);
    ModMultiple(m, q);
  }

  lemma DecodedSmall(x: nat, m: nat, a: nat, p: nat)
    requires p > 0 && a > 0 && a * p == EXPONENT && m == x * EXPONENT / p
    ensures m / a == x
  {
    MulAssociate(x, a, p);
    ModMultiple(x * a, p);
    ModMultiple(x, a);
  }

  /**
    A target rounded to the compact format and read back: not larger, at most 1/32768 of it smaller,
    without sign or overflow, and rounding it again changes nothing.
    */
  lemma RoundTrip(x: nat)
    requires x < TWO256()
    ensures var n := Encoded(x, false); var t := Decoded(n);
      && n < B && !t.negative && !t.overflow
      && t.value <= x && (x - t.value) * 0x8000 <= x
      && Encoded(t.value, false) == n
  {
    hide Normalized, Normal;
    NormalizedIsNormal(x);
    FieldsOf(x);
    var n := Encoded(x, false);
    var (size, mantissa) := Normalized(x);
    if x == 0 {
      ZeroDecoded(n);
    } else {
      var y := Decoded(n).value;
      DecodedNormal(x, y, n, size, mantissa);
      SameNormal(y, size, mantissa);
    }
  }

  /** The sign comes back with every number but 0, which has none, and touches nothing else. */
  lemma SignSurvives(x: nat)
    requires x < TWO256()
    ensures var n := Encoded(x, true);
      && n < B && Decoded(n) == Decoded(Encoded(x, false)).(negative := x != 0)
      && n == Encoded(x, false) + if x != 0 then SIGN else 0
  {
    hide Normalized, Normal, Pow, Decoded, Word, Exponent, Mantissa, SignBit;
    NormalizedIsNormal(x);
    FieldsOf(x);
    var n := Encoded(x, false);
    var (size, mantissa) := Normalized(x);
    if x != 0 {
      MantissaIsPositive(x, size, mantissa);
      SignedFields(size, mantissa);
      WordIsPositive(x, n);
      SameFields(n, n + SIGN);
    } else {
      NoSign(n);
    }
  }

  /** Two words that differ in the sign bit only. */
  lemma SameFields(n: nat, n': nat)
    requires Exponent(n) == Exponent(n') && Mantissa(n) == Mantissa(n') && !SignBit(n) && SignBit(n')
    ensures Decoded(n') == Decoded(n).(negative := Word(n) != 0)
  {
    hide Exponent, Mantissa, SignBit, Pow;
  }

  lemma NoSign(n: nat)
    requires !SignBit(n)
    ensures !Decoded(n).negative
  {
    hide Exponent, Mantissa, SignBit, Pow;
  }

  lemma MantissaIsPositive(x: nat, size: nat, mantissa: nat)
    requires Normal(x, size, mantissa)
    ensures 0 < mantissa < SIGN
  {}

  lemma SignedFields(size: nat, mantissa: nat)
    requires mantissa < SIGN && size <= 33
    ensures var n := size * EXPONENT + mantissa + SIGN;
      n < B && Exponent(n) == size && Mantissa(n) == mantissa && SignBit(n)
  {
    DivideUnique(size * EXPONENT + mantissa + SIGN, EXPONENT, size);
    DivideUnique(size * EXPONENT + mantissa + SIGN, SIGN, 2 * size + 1);
  }

  lemma WordIsPositive(x: nat, n: nat)
    requires 0 < x < TWO256() && n == Encoded(x, false)
    ensures Word(n) != 0
  {
    hide Normalized, Normal, Pow;
    RoundTrip(x);
    if Word(n) == 0 { ZeroWord(n); }
  }

  lemma ZeroWord(n: nat)
    requires Word(n) == 0
    ensures Decoded(n).value == 0
  {
    if Exponent(n) > 3 { DivideUnique(0, TWO256(), 0); }
  }

  lemma ZeroDecoded(n: nat)
    requires Exponent(n) == 0 && Mantissa(n) == 0
    ensures Decoded(n).value == 0 && !Decoded(n).negative && !Decoded(n).overflow
  {
    BytePower(3);
  }

  lemma SameNormal(y: nat, size: nat, mantissa: nat)
    requires y < TWO256() && Normal(y, size, mantissa)
    ensures Normalized(y) == (size, mantissa)
  {
    hide Normalized, Pow;
    NormalizedIsNormal(y);
    var (size', mantissa') := Normalized(y);
    if y == 0 { DivideUnique(0, Pow(256, size), 0); }
    if size <= size' { NormalUnique(y, size, mantissa, size', mantissa'); } else { NormalUnique(y, size', mantissa', size, mantissa); }
  }

  // ----- The methods -----

  method SetCompact(a: BaseUint, nCompact: nat) returns (fNegative: bool, fOverflow: bool)
    requires a.Valid() && nCompact < B
    modifies a.pn
    ensures Target(a.Value(), fNegative, fOverflow) == Decoded(nCompact)
  {
    hide Pow, Num;
    var nSize := nCompact / 0x100_0000;
    var nWord := nCompact % 0x80_0000;
    if nSize <= 3 {
      nWord := ShiftDown(nWord, 8 * (3 - nSize));
      a.Assign64(nWord);
    } else {
      a.Assign64(nWord);
      a.ShiftLeft(8 * (nSize - 3));
    }
    fNegative := nWord != 0 && SignBit(nCompact);
    fOverflow := nWord != 0 && (nSize > 34 || (nWord > 0xff && nSize > 33) || (nWord > 0xffff && nSize > 32));
  }

  method GetCompact(a: BaseUint, fNegative: bool) returns (nCompact: nat)
    requires a.Valid()
    ensures nCompact == Encoded(a.Value(), fNegative) && nCompact < B
  {
    hide Pow, Num, BitLength, Normal, Or, Top;
    NumBound(a.pn[..]);
    NormalizedIsNormal(a.Value());
    var nSize;
    nSize, nCompact := TopBytes(a);
    if nCompact / SIGN % 2 == 1 {
      nCompact := nCompact / 256;
      nSize := nSize + 1;
    }
    assert nCompact < SIGN;
    assert nSize < 256;
    FieldsJoin(nCompact, nSize);
    ghost var mantissa := nCompact;
    nCompact := Or(nCompact, nSize * EXPONENT);
    if fNegative && nCompact % SIGN != 0 {
      nCompact := Or(nCompact, SIGN);
    }
  }

  method TopBytes(a: BaseUint) returns (nSize: nat, nCompact: nat)
    requires a.Valid()
    ensures (nSize, nCompact) == Top(a.Value())
  {
    hide Pow, Num, BitLength;
    var bits := a.Bits();
    BitLengthUnique(a.Value(), bits);
    nSize := (bits + 7) / 8;
    if nSize <= 3 {
      var low := a.GetLow64();
      nCompact := low * Pow(2, 8 * (3 - nSize)) % TWO64 % B;
    } else {
      var bn := new BaseUint.Copy(a);
      bn.ShiftRight(8 * (nSize - 3));
      var low := bn.GetLow64();
      nCompact := low % B;
    }
  }

  /** The fields have no bits in common. */
  lemma FieldsJoin(mantissa: nat, size: nat)
    requires mantissa < SIGN && size < 256
    ensures var n := size * EXPONENT + mantissa;
      Or(mantissa, size * EXPONENT) == n && n % SIGN == mantissa && n + SIGN < B && Or(n, SIGN) == n + SIGN
  {
    hide Or, Pow;
    var n := size * EXPONENT + mantissa;
    Pow24();
    DivideUnique(mantissa, EXPONENT, 0);
    OrDisjoint(size, mantissa, 24);
    DivideUnique(n, SIGN, 2 * size);
    OrSetBit(n, 23);
  }

  lemma Pow24()
    ensures Pow(2, 24) == EXPONENT && Pow(2, 23) == SIGN
  {
    hide Pow;
    Squares(2);
    PowAdd(2, 16, 4);
    PowAdd(2, 20, 2);
    PowAdd(2, 22, 1);
    PowNext(2, 23);
  }
}
