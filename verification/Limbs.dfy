/** Numbers as 32-bit limbs, the least significant first, and what shifting limbs means for the number. */
module Limbs {
  import opened Arith
  import opened Powers

  const B := TWO32

  type Limb = x: nat | x < B

  function Num(s: seq<Limb>): nat {
    if s == [] then 0 else Num(s[..|s| - 1]) + s[|s| - 1] * Pow(B, |s| - 1)
  }

  lemma NumNext(s: seq<Limb>, i: nat)
    requires i < |s|
    ensures Num(s[..i + 1]) == Num(s[..i]) + s[i] * Pow(B, i)
  {
    assert s[..i + 1][..i] == s[..i];
  }

  lemma {:induction false} NumBound(s: seq<Limb>)
    ensures Num(s) < Pow(B, |s|)
  {
    if s != [] {
      var m := |s| - 1;
      NumBound(s[..m]);
      var d: nat := s[m];
      MulMonotone(d + 1, B, Pow(B, m));
      MulAdd(d, 1, Pow(B, m));
    }
  }

  lemma {:induction false} NumZero(s: seq<Limb>)
    requires forall i :: 0 <= i < |s| ==> s[i] == 0
    ensures Num(s) == 0
  {
    if s != [] { NumZero(s[..|s| - 1]); }
  }

  lemma {:induction false} NumSplit(s: seq<Limb>, k: nat)
    requires k <= |s|
    ensures Num(s) == Num(s[..k]) + Num(s[k..]) * Pow(B, k)
  {
    if k == |s| {
      assert s[..k] == s && s[k..] == [];
    } else {
      var m := |s| - 1;
      var t := s[..m];
      NumSplit(t, k);
      assert t[..k] == s[..k] && t[k..] == s[k..][..m - k] && s[k..][m - k] == s[m];
      PowAdd(B, m - k, k);
      MulAdd(Num(t[k..]), s[m] * Pow(B, m - k), Pow(B, k));
      MulAssociate(s[m], Pow(B, m - k), Pow(B, k));
    }
  }

  // ----- Bits of a limb -----

  /** Bitwise or. */
  function Or(x: nat, y: nat): nat {
    if x == 0 && y == 0 then 0
    else 2 * Or(x / 2, y / 2) + if x % 2 == 1 || y % 2 == 1 then 1 else 0
  }

  lemma {:induction false} OrZero(x: nat)
    ensures Or(x, 0) == x && Or(0, x) == x
  {
    if x > 0 { OrZero(x / 2); }
  }

  /** Without common bits it is the sum. */
  lemma {:induction false} OrDisjoint(x: nat, y: nat, s: nat)
    ensures Pow(2, s) > 0
    ensures Or(x * Pow(2, s), y % Pow(2, s)) == x * Pow(2, s) + y % Pow(2, s)
    ensures Or(y % Pow(2, s), x * Pow(2, s)) == x * Pow(2, s) + y % Pow(2, s)
    decreases s
  {
    hide Or, Pow;
    PowPositive(2, s);
    PowZero(2);
    if s == 0 {
      OrZero(x);
    } else {
      PowPositive(2, s - 1);
      PowNext(2, s - 1);
      var p := Pow(2, s - 1);
      DivideSplits(y, 2);
      HalfMod(y, p);
      MulDouble(x, p);
      OrDisjoint(x, y / 2, s - 1);
      OrDouble(x * p, y / 2 % p, y % 2);
    }
  }

  lemma MulDouble(x: int, p: int)
    ensures x * (2 * p) == 2 * (x * p)
  {}

  /** The lowest bit apart. */
  lemma OrDouble(x: nat, y: nat, bit: nat)
    requires bit < 2
    ensures Or(2 * x, 2 * y + bit) == 2 * Or(x, y) + bit
    ensures Or(2 * y + bit, 2 * x) == 2 * Or(y, x) + bit
  {
    hide Or;
    DivideUnique(2 * x, 2, x);
    DivideUnique(2 * y + bit, 2, y);
    OrStep(2 * x, 2 * y + bit);
    OrStep(2 * y + bit, 2 * x);
  }

  lemma OrStep(x: nat, y: nat)
    ensures Or(x, y) == 2 * Or(x / 2, y / 2) + if x % 2 == 1 || y % 2 == 1 then 1 else 0
  {
    if x == 0 && y == 0 { assert Or(0, 0) == 0; }
  }

  /** Setting a bit that is not set. */
  lemma {:induction false} OrSetBit(x: nat, k: nat)
    requires Pow(2, k) > 0 && x / Pow(2, k) % 2 == 0
    ensures Or(x, Pow(2, k)) == x + Pow(2, k)
    decreases k
  {
    hide Or, Pow;
    PowZero(2);
    DivideSplits(x, 2);
    if k == 0 {
      OrLowest(x);
    } else {
      PowPositive(2, k - 1);
      PowNext(2, k - 1);
      HalfQuotient(x, Pow(2, k - 1));
      OrSetBit(x / 2, k - 1);
      OrDouble(Pow(2, k - 1), x / 2, x % 2);
    }
  }

  lemma OrLowest(x: nat)
    requires x % 2 == 0
    ensures Or(x, 1) == x + 1
  {
    OrZero(x / 2);
  }

  lemma HalfQuotient(x: nat, p: nat)
    requires p > 0
    ensures x / (2 * p) == x / 2 / p
  {
    DivideSplits(x, 2);
    DivideSplits(x / 2, p);
    var q := x / 2 / p;
    MulDouble(q, p);
    DivideUnique(x, 2 * p, q);
  }

  lemma HalfMod(y: nat, p: nat)
    requires p > 0
    ensures y % (2 * p) == 2 * (y / 2 % p) + y % 2
  {
    DivideSplits(y, 2);
    DivideSplits(y / 2, p);
    var q := y / 2 / p;
    assert q * (2 * p) == 2 * (q * p);
    DivideUnique(y, 2 * p, q);
  }

  lemma PowOfTwo32()
    ensures Pow(2, 32) == B && Pow(2, 31) * 2 == B
  {
    hide Pow;
    Squares(2);
    PowNext(2, 31);
  }

  lemma PowSplits(s: nat)
    requires s <= 32
    ensures Pow(2, s) * Pow(2, 32 - s) == B && Pow(2, s) > 0 && Pow(2, 32 - s) > 0
  {
    PowOfTwo32();
    PowAdd(2, s, 32 - s);
    PowPositive(2, s);
    PowPositive(2, 32 - s);
  }

  /** x << s in 32 bits. */
  function Shl(x: Limb, s: nat): Limb {
    x * Pow(2, s) % B
  }

  /** x >> s */
  function Shr(x: Limb, s: nat): Limb {
    ShiftDown(x, s)
  }

  /** What a left shift pushes out of a limb, and what it leaves there. */
  lemma ShlParts(x: Limb, s: nat)
    requires 0 < s < 32
    ensures Pow(2, 32 - s) > 0
    ensures x * Pow(2, s) == Shr(x, 32 - s) * B + Shl(x, s)
    ensures Shl(x, s) == x % Pow(2, 32 - s) * Pow(2, s)
    ensures Shr(x, 32 - s) < Pow(2, s)
  {
    PowSplits(s);
    var p, q := Pow(2, s), Pow(2, 32 - s);
    DivideSplits(x, q);
    var h, l := x / q, x % q;
    MulAdd(h * q, l, p);
    MulAssociate(h, q, p);
    assert q * p == B;
    MulMonotone(l + 1, q, p);
    MulAdd(l, 1, p);
    DivideUnique(x * p, B, h);
    assert h < p by { if h >= p { MulMonotone(p, h, q); } }
  }

  /** What a right shift leaves in a limb, and what falls into the one below. */
  lemma ShrParts(x: Limb, s: nat)
    requires 0 < s < 32
    ensures Pow(2, s) > 0 && Shl(x, 32 - s) == x % Pow(2, s) * Pow(2, 32 - s)
    ensures Shl(x, 32 - s) * Pow(2, s) == x % Pow(2, s) * B
    ensures Shr(x, s) * Pow(2, s) == x - x % Pow(2, s)
    ensures Shr(x, s) < Pow(2, 32 - s)
  {
    hide Pow;
    ShlParts(x, 32 - s);
    assert 32 - (32 - s) == s;
    PowSplits(s);
    MulAssociate(x % Pow(2, s), Pow(2, 32 - s), Pow(2, s));
    DivideSplits(x, Pow(2, s));
  }

  // ----- Shifting a whole number -----

  /** Limb m after a left shift by k limbs and s bits. */
  function ShlLimb(a: seq<Limb>, k: nat, s: nat, m: nat): nat
    requires s < 32 && m < |a|
  {
    (if m >= k then Shl(a[m - k], s) else 0) + (if m >= k + 1 && s != 0 then Shr(a[m - k - 1], 32 - s) else 0)
  }

  /** What has been pushed out of the first n limbs. */
  function ShlOut(a: seq<Limb>, k: nat, s: nat, n: nat): nat
    requires s < 32 && n <= |a|
  {
    if n >= k + 1 && s != 0 then Shr(a[n - k - 1], 32 - s) else 0
  }

  ghost predicate ShiftedLeft(a: seq<Limb>, k: nat, s: nat, r: seq<Limb>) {
    s < 32 && |r| == |a| && forall m :: 0 <= m < |a| ==> r[m] == ShlLimb(a, k, s, m)
  }

  lemma ShlLimbParts(a: seq<Limb>, k: nat, s: nat, m: nat)
    requires s < 32 && k <= m < |a|
    ensures ShlLimb(a, k, s, m) + ShlOut(a, k, s, m + 1) * B == a[m - k] * Pow(2, s) + ShlOut(a, k, s, m)
  {
    if s == 0 {
      assert Shl(a[m - k], 0) == a[m - k];
    } else {
      ShlParts(a[m - k], s);
    }
  }

  lemma NothingShifted(a: seq<Limb>, k: nat, s: nat, r: seq<Limb>)
    requires ShiftedLeft(a, k, s, r) && k <= |a|
    ensures ShlOut(a, k, s, k) == 0 && forall m :: 0 <= m < k ==> r[..k][m] == 0
  {
    hide Shl, Shr;
  }

  lemma {:induction false} ShiftedLeftPrefix(a: seq<Limb>, k: nat, s: nat, r: seq<Limb>, n: nat)
    requires ShiftedLeft(a, k, s, r) && k <= n <= |a|
    ensures Num(r[..n]) + ShlOut(a, k, s, n) * Pow(B, n) == Num(a[..n - k]) * Pow(2, s) * Pow(B, k)
  {
    hide Num, Pow, ShlLimb, ShlOut;
    if n == k {
      NothingShifted(a, k, s, r);
      NumZero(r[..n]);
      NumZero(a[..0]);
    } else {
      ShiftedLeftPrefix(a, k, s, r, n - 1);
      NumNext(r, n - 1);
      NumNext(a, n - 1 - k);
      ShlLimbParts(a, k, s, n - 1);
      PowNext(B, n - 1);
      PowAdd(B, n - 1 - k, k);
      ShlAlgebra(Num(r[..n - 1]), Num(a[..n - 1 - k]), r[n - 1], ShlOut(a, k, s, n), ShlOut(a, k, s, n - 1), a[n - 1 - k],
                 Pow(2, s), Pow(B, k), Pow(B, n - 1 - k), Pow(B, n - 1));
    }
  }

  lemma ShlAlgebra(r: int, a: int, limb: int, out: int, out': int, x: int, p: int, bk: int, bm: int, bn: int)
    requires r + out' * bn == a * p * bk && limb + out * B == x * p + out' && bn == bm * bk
    ensures r + limb * bn + out * (B * bn) == (a + x * bm) * p * bk
  {
    assert (a + x * bm) * p * bk == a * p * bk + x * bm * p * bk;
    assert x * bm * p * bk == x * p * (bm * bk);
    MulAdd(limb, out * B, bn);
    MulAdd(x * p, out', bn);
    MulAssociate(out, B, bn);
  }

  lemma PowShift(k: nat, s: nat)
    ensures Pow(2, 32 * k + s) == Pow(2, s) * Pow(B, k) && Pow(2, s) > 0 && Pow(B, k) > 0 && Pow(2, 32 * k + s) > 0
  {
    hide Pow;
    PowOfTwo32();
    PowOfPow(2, 32, k);
    PowAdd(2, s, 32 * k);
    PowPositive(2, s);
    PowPositive(B, k);
    PowPositive(2, 32 * k + s);
  }

  /** A left shift multiplies by a power of two, modulo the range of the number. */
  lemma ShiftedLeftMeans(a: seq<Limb>, k: nat, s: nat, r: seq<Limb>)
    requires ShiftedLeft(a, k, s, r)
    ensures Pow(B, |a|) > 0 && Num(r) == Num(a) * Pow(2, 32 * k + s) % Pow(B, |a|)
  {
    hide Num, Pow, ShlOut;
    var n := |a|;
    PowPositive(B, n);
    NumBound(r);
    PowShift(k, s);
    if k > n {
      NumZero(r);
      PowAdd(B, k - n, n);
      ShiftedOut(Num(a), Pow(2, s), Pow(B, k - n), Pow(B, n));
    } else {
      ShiftedLeftPrefix(a, k, s, r, n);
      assert r[..n] == r;
      NumSplit(a, n - k);
      PowAdd(B, n - k, k);
      ShiftedRest(Num(r), ShlOut(a, k, s, n), Num(a), Num(a[..n - k]), Num(a[n - k..]), Pow(2, s), Pow(B, k), Pow(B, n - k), Pow(B, n));
    }
  }

  lemma ShiftedOut(a: nat, p: nat, b': nat, bn: nat)
    requires bn > 0
    ensures a * (p * (b' * bn)) % bn == 0
  {
    assert a * (p * (b' * bn)) == a * p * b' * bn;
    ModMultiple(a * p * b', bn);
  }

  lemma ShiftedRest(r: nat, out: nat, a: nat, lo: nat, hi: nat, p: nat, bk: nat, bm: nat, bn: nat)
    requires bn > 0 && r < bn && bn == bm * bk && a == lo + hi * bm && r + out * bn == lo * p * bk
    ensures r == a * (p * bk) % bn
  {
    assert a * (p * bk) == lo * p * bk + hi * p * (bm * bk);
    MulAdd(out, hi * p, bn);
    DivideUnique(a * (p * bk), bn, out + hi * p);
  }

  /** Limb m after a right shift by k limbs and s bits. */
  function ShrLimb(a: seq<Limb>, k: nat, s: nat, m: nat): nat
    requires s < 32 && m < |a|
  {
    (if m + k < |a| then Shr(a[m + k], s) else 0) + (if m + k + 1 < |a| && s != 0 then Shl(a[m + k + 1], 32 - s) else 0)
  }

  ghost predicate ShiftedRight(a: seq<Limb>, k: nat, s: nat, r: seq<Limb>) {
    s < 32 && |r| == |a| && forall m :: 0 <= m < |a| ==> r[m] == ShrLimb(a, k, s, m)
  }

  /** The bits that fall out of limb n. */
  function ShrOut(a: seq<Limb>, k: nat, s: nat, n: nat): nat {
    PowPositive(2, s);
    if n + k < |a| then a[n + k] % Pow(2, s) else 0
  }

  lemma ShrLimbParts(a: seq<Limb>, k: nat, s: nat, m: nat)
    requires s < 32 && m + k < |a|
    ensures ShrLimb(a, k, s, m) * Pow(2, s) == a[m + k] - ShrOut(a, k, s, m) + ShrOut(a, k, s, m + 1) * B
  {
    var x := a[m + k];
    if s > 0 {
      ShrParts(x, s);
      if m + k + 1 < |a| {
        ShrParts(a[m + k + 1], s);
        MulAdd(Shr(x, s), Shl(a[m + k + 1], 32 - s), Pow(2, s));
      }
    }
  }

  lemma {:induction false} ShiftedRightPrefix(a: seq<Limb>, k: nat, s: nat, r: seq<Limb>, n: nat)
    requires ShiftedRight(a, k, s, r) && n + k <= |a|
    ensures Num(r[..n]) * Pow(2, s) + ShrOut(a, k, s, 0) == Num(a[k..][..n]) + ShrOut(a, k, s, n) * Pow(B, n)
  {
    hide Num, Pow, Shl, Shr;
    if n == 0 {
      NumZero(r[..0]);
      NumZero(a[k..][..0]);
      PowZero(B);
    } else {
      var m := n - 1;
      ShiftedRightPrefix(a, k, s, r, m);
      NumNext(r, m);
      NumNext(a[k..], m);
      PowNext(B, m);
      ShrLimbParts(a, k, s, m);
      ShrAlgebra(Num(r[..m]), Num(a[k..][..m]), r[m], ShrOut(a, k, s, n), ShrOut(a, k, s, m), ShrOut(a, k, s, 0), a[m + k], Pow(2, s), Pow(B, m));
    }
  }

  lemma ShrAlgebra(r: int, a: int, limb: int, out: int, out': int, first: int, x: int, p: int, bm: int)
    requires r * p + first == a + out' * bm && limb * p == x - out' + out * B
    ensures (r + limb * bm) * p + first == a + x * bm + out * (B * bm)
  {
    assert limb * bm * p == limb * p * bm;
    MulAdd(r, limb * bm, p);
    assert (x - out' + out * B) * bm == x * bm - out' * bm + out * (B * bm);
  }

  /** A right shift divides by a power of two, rounding down. */
  lemma ShiftedRightMeans(a: seq<Limb>, k: nat, s: nat, r: seq<Limb>)
    requires ShiftedRight(a, k, s, r)
    ensures Pow(2, 32 * k + s) > 0 && Num(r) == Num(a) / Pow(2, 32 * k + s)
  {
    hide Num, Pow;
    var n := |a|;
    PowShift(k, s);
    NumBound(a);
    if k >= n {
      NumZero(r);
      PowGrows(B, n, k);
      MulMonotone(1, Pow(2, s), Pow(B, k));
      DivideUnique(Num(a), Pow(2, s) * Pow(B, k), 0);
    } else {
      var w := n - k;
      ShiftedRightPrefix(a, k, s, r, w);
      assert a[k..][..w] == a[k..];
      NumSplit(a, k);
      NumBound(a[..k]);
      NumSplit(r, w);
      NumZero(r[w..]);
      DivideTwice(Num(a), Num(a[k..]), Num(a[..k]), Num(r), ShrOut(a, k, s, 0), Pow(2, s), Pow(B, k));
    }
  }

  lemma DivideTwice(a: nat, hi: nat, lo: nat, r: nat, out: nat, p: nat, bk: nat)
    requires p > 0 && bk > 0 && a == lo + hi * bk && lo < bk && hi == r * p + out && out < p
    ensures p * bk > 0 && r == a / (p * bk)
  {
    MulAdd(r * p, out, bk);
    MulAssociate(r, p, bk);
    MulMonotone(out + 1, p, bk);
    MulAdd(out, 1, bk);
    MulMonotone(1, p, bk);
    DivideUnique(a, p * bk, r);
  }

  // ----- One step of carrying -----

  /** What a limb keeps and what it carries on. */
  lemma CarryOn(n: nat, p: nat)
    ensures n / B >= 0 && n % B * p + n / B * (B * p) == n * p
  {
    DivideSplits(n, B);
    MulAssociate(n / B, B, p);
    MulAdd(n / B * B, n % B, p);
  }

  /** Writing limb i changes the prefix beyond it by that limb. */
  lemma PrefixStep(s: seq<Limb>, t: seq<Limb>, i: nat)
    requires i < |s| == |t| && t[..i] == s[..i]
    ensures Num(t[..i + 1]) == Num(s[..i]) + t[i] * Pow(B, i)
  {
    NumNext(t, i);
  }
}
