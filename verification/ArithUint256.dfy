/** arith_uint256: the limb array and the operators that overwrite it. */
module ArithUint256 {
  import opened Arith
  import opened Limbs
  import opened Powers

  const WIDTH := 8

  function TWO256(): (n: nat)
    ensures n > 0
  {
    PowPositive(B, WIDTH);
    Pow(B, WIDTH)
  }

  lemma Wrap(r: seq<Limb>, carry: int, n: int)
    requires |r| == WIDTH && Num(r) + carry * TWO256() == n
    ensures Num(r) == n % TWO256()
  {
    NumBound(r);
    DivideUnique(n, TWO256(), carry);
  }

  class BaseUint {
    const pn: array<Limb>

    ghost predicate Valid() {
      pn.Length == WIDTH
    }

    ghost function Value(): (v: nat)
      reads pn
    {
      Num(pn[..])
    }

    constructor ()
      ensures Valid() && Value() == 0 && fresh(pn)
    {
      pn := new Limb[WIDTH](_ => 0);
      new;
      NumZero(pn[..]);
    }

    constructor Copy(b: BaseUint)
      requires b.Valid()
      ensures Valid() && pn[..] == b.pn[..] && fresh(pn)
    {
      pn := new Limb[WIDTH](i requires 0 <= i < b.pn.Length reads b.pn => b.pn[i]);
    }

    constructor FromUint64(b: nat)
      requires b < TWO64
      ensures Valid() && Value() == b && fresh(pn)
    {
      pn := new Limb[WIDTH](_ => 0);
      new;
      Assign64(b);
    }

    method Clear()
      requires Valid()
      modifies pn
      ensures Value() == 0 && forall i :: 0 <= i < WIDTH ==> pn[i] == 0
    {
      for i := 0 to WIDTH
        invariant forall k :: 0 <= k < i ==> pn[k] == 0
      {
        pn[i] := 0;
      }
      NumZero(pn[..]);
    }

    method Assign64(b: nat)
      requires Valid() && b < TWO64
      modifies pn
      ensures Value() == b
    {
      HighLimb(b);
      pn[0] := b % B;
      pn[1] := b / B;
      for i := 2 to WIDTH
        invariant pn[0] == b % B && pn[1] == b / B && forall k :: 2 <= k < i ==> pn[k] == 0
      {
        pn[i] := 0;
      }
      TwoLimbs(pn[..]);
      DivideSplits(b, B);
    }

    method AddAssign(b: BaseUint)
      requires Valid() && b.Valid()
      modifies pn
      ensures Value() == (old(Value()) + old(b.Value())) % TWO256()
    {
      hide Num, Pow;
      ghost var a0, b0 := pn[..], b.pn[..];
      var carry: nat := 0;
      NumZero([]);
      assert pn[..0] == a0[..0] == b0[..0] == [];
      for i := 0 to WIDTH
        invariant carry <= 1 && pn[i..] == a0[i..] && b.pn[i..] == b0[i..]
        invariant Num(pn[..i]) + carry * Pow(B, i) == Num(a0[..i]) + Num(b0[..i])
      {
        assert pn[i] == a0[i..][0] && b.pn[i] == b0[i..][0];
        var n := carry + pn[i] + b.pn[i];
        assert n < TWO64;
        AddStep(carry, a0, b0, i, Num(pn[..i]));
        ghost var was := pn[..];
        pn[i] := n % B;
        carry := n / B;
        PrefixStep(was, pn[..], i);
      }
      WholePrefix(pn[..], a0, b0);
      Wrap(pn[..], carry, Num(a0) + Num(b0));
    }

    method Complement() returns (ret: BaseUint)
      requires Valid()
      ensures ret.Valid() && fresh(ret) && fresh(ret.pn) && ret.Value() == TWO256() - 1 - Value()
    {
      ret := new BaseUint();
      for i := 0 to WIDTH
        invariant forall k :: 0 <= k < i ==> ret.pn[k] == B - 1 - pn[k]
      {
        ret.pn[i] := B - 1 - pn[i];  // ~pn[i]
      }
      ComplementMeans(pn[..], ret.pn[..]);
    }

    method Negate() returns (ret: BaseUint)
      requires Valid()
      ensures ret.Valid() && fresh(ret) && fresh(ret.pn) && ret.Value() == (0 - Value()) % TWO256()
    {
      ret := Complement();
      ret.Increment();
      NumBound(pn[..]);
      DivideUnique(0 - Value(), TWO256(), if Value() == 0 then 0 else -1);
      if Value() == 0 { ModMultiple(1, TWO256()); } else { DivideUnique(TWO256() - Value(), TWO256(), 0); }
    }

    method SubAssign(b: BaseUint)
      requires Valid() && b.Valid()
      modifies pn
      ensures Value() == (old(Value()) - old(b.Value())) % TWO256()
    {
      var n := b.Negate();
      AddAssign(n);
      AddNegated(old(Value()), old(b.Value()), TWO256());
    }

    method Increment()
      requires Valid()
      modifies pn
      ensures Value() == (old(Value()) + 1) % TWO256()
    {
      hide Num, Pow;
      ghost var a0 := pn[..];
      var i := 0;
      FirstLimb(a0);
      pn[0] := (pn[0] + 1) % B;
      FirstLimb(pn[..]);
      while pn[i] == 0 && i < WIDTH - 1
        invariant i < WIDTH && pn[i + 1..] == a0[i + 1..]
        invariant Num(pn[..i + 1]) + (if pn[i] == 0 then Pow(B, i + 1) else 0) == Num(a0[..i + 1]) + 1
      {
        i := i + 1;
        assert pn[i] == a0[i..][0];
        ghost var was := pn[..];
        pn[i] := (pn[i] + 1) % B;
        PrefixStep(was, pn[..], i);
        NumNext(a0, i);
        PowNext(B, i);
        IncrementStep(a0[i], Pow(B, i));
      }
      assert pn[i + 1..] == a0[i + 1..];
      Untouched(pn[..], a0, i + 1);
      Wrap(pn[..], if i == WIDTH - 1 && pn[i] == 0 then 1 else 0, Num(a0) + 1);
    }

    method Decrement()
      requires Valid()
      modifies pn
      ensures Value() == (old(Value()) - 1) % TWO256()
    {
      hide Num, Pow;
      ghost var a0 := pn[..];
      var i := 0;
      FirstLimb(a0);
      pn[0] := (pn[0] - 1) % B;
      FirstLimb(pn[..]);
      while pn[i] == B - 1 && i < WIDTH - 1
        invariant i < WIDTH && pn[i + 1..] == a0[i + 1..]
        invariant Num(pn[..i + 1]) + 1 == Num(a0[..i + 1]) + (if pn[i] == B - 1 then Pow(B, i + 1) else 0)
      {
        i := i + 1;
        assert pn[i] == a0[i..][0];
        ghost var was := pn[..];
        pn[i] := (pn[i] - 1) % B;
        PrefixStep(was, pn[..], i);
        NumNext(a0, i);
        PowNext(B, i);
        DecrementStep(a0[i], Pow(B, i));
      }
      Untouched(pn[..], a0, i + 1);
      Wrap(pn[..], if i == WIDTH - 1 && pn[i] == B - 1 then -1 else 0, Num(a0) - 1);
    }

    /** operator<<=, for any shift */
    method ShiftLeft(bits: nat)
      requires Valid()
      modifies pn
      ensures Value() == old(Value()) * Pow(2, bits) % TWO256()
    {
      hide Num, Pow, ShlLimb, ShlOut, Shl, Shr, Or;
      var a := new BaseUint.Copy(this);
      ghost var a0 := pn[..];
      Clear();
      var k := bits / 32;
      var shift := bits % 32;
      ShlOutStart(a0, k, shift);
      for i := 0 to WIDTH
        invariant a.pn[..] == a0
        invariant forall m :: 0 <= m < WIDTH && m < i + k ==> pn[m] == ShlLimb(a0, k, shift, m)
        invariant forall m :: 0 <= m < WIDTH && m == i + k ==> pn[m] == ShlOut(a0, k, shift, m)
        invariant forall m :: 0 <= m < WIDTH && m > i + k ==> pn[m] == 0
      {
        assert a.pn[i] == a0[i];
        if i + k + 1 < WIDTH {
          ShlOutIs(a0, k, shift, i);
          OrZero(ShlOut(a0, k, shift, i + k + 1));
        }
        if i + k < WIDTH { ShlOr(a0, k, shift, i); }
        if i + k + 1 < WIDTH && shift != 0 {
          pn[i + k + 1] := Or(pn[i + k + 1], Shr(a.pn[i], 32 - shift));
        }
        if i + k < WIDTH {
          pn[i + k] := Or(pn[i + k], Shl(a.pn[i], shift));
        }
      }
      DivideSplits(bits, 32);
      ShiftedLeftMeans(a0, k, shift, pn[..]);
    }

    /** operator>>=, for any shift */
    method ShiftRight(bits: nat)
      requires Valid()
      modifies pn
      ensures Pow(2, bits) > 0 && Value() == old(Value()) / Pow(2, bits)
    {
      hide Num, Pow, ShrLimb, Shl, Shr, Or;
      var a := new BaseUint.Copy(this);
      ghost var a0 := pn[..];
      Clear();
      var k := bits / 32;
      var shift := bits % 32;
      for i := 0 to WIDTH
        invariant a.pn[..] == a0
        invariant forall m :: 0 <= m < WIDTH && m + k + 1 < i ==> pn[m] == ShrLimb(a0, k, shift, m)
        invariant forall m :: 0 <= m < WIDTH && m + k + 1 == i ==> pn[m] == Shr(a0[m + k], shift)
        invariant forall m :: 0 <= m < WIDTH && m + k + 1 > i ==> pn[m] == 0
      {
        assert a.pn[i] == a0[i];
        if i >= k + 1 { ShrOr(a0, k, shift, i - k - 1); }
        if i >= k { OrZero(Shr(a0[i], shift)); }
        if i - k - 1 >= 0 && shift != 0 {
          pn[i - k - 1] := Or(pn[i - k - 1], Shl(a.pn[i], 32 - shift));
        }
        if i - k >= 0 {
          pn[i - k] := Or(pn[i - k], Shr(a.pn[i], shift));
        }
      }
      forall m | 0 <= m < WIDTH ensures pn[m] == ShrLimb(a0, k, shift, m) { ShrTop(a0, k, shift, m); }
      DivideSplits(bits, 32);
      ShiftedRightMeans(a0, k, shift, pn[..]);
    }

    method MulAssign32(b32: Limb)
      requires Valid()
      modifies pn
      ensures Value() == old(Value()) * b32 % TWO256()
    {
      hide Num, Pow;
      ghost var a0 := pn[..];
      var carry: nat := 0;
      NumZero([]);
      assert pn[..0] == a0[..0] == [];
      for i := 0 to WIDTH
        invariant carry < B && pn[i..] == a0[i..]
        invariant Num(pn[..i]) + carry * Pow(B, i) == Num(a0[..i]) * b32
      {
        assert pn[i] == a0[i..][0];
        var n := carry + b32 * pn[i];
        AccumulatorFits(b32, pn[i], carry, 0);
        assert n < TWO64;
        NumNext(a0, i);
        MulStep32(carry, b32, a0[i], Num(pn[..i]), Num(a0[..i]), Pow(B, i));
        PowNext(B, i);
        ghost var was := pn[..];
        pn[i] := n % B;
        carry := n / B;
        PrefixStep(was, pn[..], i);
      }
      WholePrefix(pn[..], a0, a0);
      Wrap(pn[..], carry, Num(a0) * b32);
    }

    /** Multiplying a number by itself in place clears it first, so the result is 0. */
    method MulAssign(b: BaseUint)
      requires Valid() && b.Valid()
      modifies pn
      ensures b.pn != pn ==> Value() == old(Value()) * old(b.Value()) % TWO256()
      ensures b.pn == pn ==> Value() == 0
    {
      hide Num, Pow;
      ghost var a0 := pn[..];
      var a := new BaseUint.Copy(this);
      Clear();
      ghost var b0 := b.pn[..];
      NumZero([]);
      assert a0[..0] == [];
      DivideUnique(0, TWO256(), 0);
      for j := 0 to WIDTH
        invariant a.pn[..] == a0 && b.pn[..] == b0
        invariant b.pn == pn ==> forall k :: 0 <= k < WIDTH ==> pn[k] == 0
        invariant Value() == Num(a0[..j]) * Num(b0) % TWO256()
      {
        assert a.pn[j] == a0[j];
        MulRow(j, a.pn[j], b);
        NumNext(a0, j);
        RowsAdd(Num(a0[..j]), a0[j], Pow(B, j), Num(b0), TWO256());
      }
      assert a0[..WIDTH] == a0;
      if b.pn == pn { NumZero(pn[..]); }
    }

    /** The inner loop: one row of the schoolbook multiplication. */
    method MulRow(j: nat, x: Limb, b: BaseUint)
      requires Valid() && b.Valid() && j < WIDTH
      requires b.pn == pn ==> forall k :: 0 <= k < WIDTH ==> pn[k] == 0
      modifies pn
      ensures Value() == (old(Value()) + x * Pow(B, j) * old(b.Value())) % TWO256()
      ensures b.pn == pn ==> pn[..] == old(pn[..])
    {
      hide Num, Pow;
      ghost var p0, b0 := pn[..], b.pn[..];
      var carry: nat := 0;
      NumZero([]);
      assert b0[..0] == [];
      var i := 0;
      while i + j < WIDTH
        invariant i + j <= WIDTH && carry < B && pn[i + j..] == p0[i + j..] && b.pn[..] == b0
        invariant b.pn == pn ==> carry == 0
        invariant Num(pn[..i + j]) + carry * Pow(B, i + j) == Num(p0[..i + j]) + x * Pow(B, j) * Num(b0[..i])
      {
        assert pn[i + j] == p0[i + j..][0] && b.pn[i] == b0[i];
        AccumulatorFits(x, b0[i], carry, p0[i + j]);
        var n := carry + pn[i + j] + x * b.pn[i];
        assert n < TWO64;
        RowNext(carry, x, p0, b0, i, j, Num(pn[..i + j]));
        ghost var was := pn[..];
        pn[i + j] := n % B;
        carry := n / B;
        PrefixStep(was, pn[..], i + j);
        i := i + 1;
      }
      RowDone(pn[..], carry, p0, b0, x, i, j);
    }

    /**
      Shift-and-subtract division. It reports division by zero, but by then this number has been cleared.
      At the end `num` is the remainder.
      */
    method DivAssign(b: BaseUint) returns (ok: bool)
      requires Valid() && b.Valid()
      modifies pn
      ensures ok <==> old(b.Value()) != 0
      ensures Value() == if ok then old(Value()) / old(b.Value()) else 0
    {
      hide Num, Pow, LowClear;
      ghost var n, d := Value(), b.Value();
      var div := new BaseUint.Copy(b);
      var num := new BaseUint.Copy(this);
      assert div.Value() == d && num.Value() == n;
      Clear();
      var numBits := num.Bits();
      var divBits := div.Bits();
      if divBits == 0 {
        return false;
      }
      AlignedFits(n, d, numBits, divBits);
      if divBits > numBits {
        DivideUnique(n, d, 0);
        return true;
      }
      var shift: int := numBits - divBits;
      div.ShiftLeft(shift);
      AllClear(pn[..], shift + 1);
      while shift >= 0
        invariant -1 <= shift < 256 && num.Valid() && div.Valid()
        invariant shift >= 0 ==> div.Value() == d * Pow(2, shift)
        invariant num.Value() < d * Pow(2, shift + 1)
        invariant n == Value() * d + num.Value()
        invariant LowClear(pn[..], shift + 1)
      {
        DivRound(num, div, shift, n, d);
        if shift > 0 { HalfAgain(d, shift); }
        div.ShiftRight(1);
        shift := shift - 1;
      }
      RemainderIsSmall(d);
      DivideUnique(n, d, Value());
      assert num.Value() == n % d;
      return true;
    }

    /** One round of the division: subtract the divisor if it fits, and set the quotient's bit. */
    method DivRound(num: BaseUint, div: BaseUint, shift: nat, ghost n: nat, ghost d: nat)
      requires Valid() && num.Valid() && div.Valid() && pn != num.pn && pn != div.pn && num.pn != div.pn && shift < 256
      requires div.Value() == d * Pow(2, shift) && num.Value() < d * Pow(2, shift + 1)
      requires n == Value() * d + num.Value() && LowClear(pn[..], shift + 1)
      modifies pn, num.pn
      ensures n == Value() * d + num.Value() && num.Value() < d * Pow(2, shift) && LowClear(pn[..], shift)
    {
      hide Num, Pow, LowClear;
      PowNext(2, shift);
      QuotientStep(n, d, Value(), num.Value(), Pow(2, shift));
      var cmp := num.CompareTo(div);
      if cmp >= 0 {
        NumBound(num.pn[..]);
        DivideUnique(num.Value() - div.Value(), TWO256(), 0);
        num.SubAssign(div);
        SetBit(shift);
      } else {
        StillClear(pn[..], shift);
      }
    }

    /** pn[shift / 32] |= (1 << (shift & 31)) */
    method SetBit(shift: nat)
      requires Valid() && shift < 256 && LowClear(pn[..], shift + 1)
      modifies pn
      ensures LowClear(pn[..], shift) && Value() == old(Value()) + Pow(2, shift)
    {
      hide Num, Pow, Or;
      var k := shift / 32;
      var bit := shift % 32;
      ghost var was := pn[..];
      BitIsFree(was[k], bit);
      pn[k] := Or(pn[k], Pow(2, bit));
      LimbSet(was, pn[..], k, Pow(2, bit));
      PowShift(k, bit);
    }

    method CompareTo(b: BaseUint) returns (r: int)
      requires Valid() && b.Valid()
      ensures r == if Value() < b.Value() then -1 else if Value() > b.Value() then 1 else 0
    {
      hide Num, Pow;
      var i := WIDTH - 1;
      while i >= 0
        invariant -1 <= i < WIDTH && forall k :: i < k < WIDTH ==> pn[k] == b.pn[k]
      {
        if pn[i] < b.pn[i] {
          HigherLimbDecides(pn[..], b.pn[..], i);
          return -1;
        }
        if pn[i] > b.pn[i] {
          HigherLimbDecides(b.pn[..], pn[..], i);
          return 1;
        }
        i := i - 1;
      }
      assert pn[..] == b.pn[..];
      return 0;
    }

    method EqualTo(b: nat) returns (r: bool)
      requires Valid() && b < TWO64
      ensures r <==> Value() == b
    {
      DivideSplits(b, B);
      HighLimb(b);
      var i := WIDTH - 1;
      while i >= 2
        invariant 1 <= i < WIDTH && forall k :: i < k < WIDTH ==> pn[k] == 0
      {
        if pn[i] != 0 {
          LimbShows(pn[..], i);
          return false;
        }
        i := i - 1;
      }
      TwoLimbs(pn[..]);
      if pn[1] != b / B {
        TwoDigits(pn[0], pn[1], b);
        return false;
      }
      return pn[0] == b % B;
    }

    /** One more than the position of the highest bit; 0 for zero. */
    method Bits() returns (r: nat)
      requires Valid()
      ensures r <= 256 && (r == 0 <==> Value() == 0)
      ensures r > 0 ==> Pow(2, r - 1) <= Value() < Pow(2, r)
    {
      hide Num, Pow;
      var pos := WIDTH - 1;
      while pos >= 0
        invariant -1 <= pos < WIDTH && forall k :: pos < k < WIDTH ==> pn[k] == 0
      {
        if pn[pos] != 0 {
          var bits := HighBit(pn[pos]);
          HighLimbBits(pn[..], pos, bits);
          PowPositive(2, 32 * pos + bits);
          return 32 * pos + bits + 1;
        }
        pos := pos - 1;
      }
      NumZero(pn[..]);
      return 0;
    }

    method GetLow64() returns (r: nat)
      requires Valid()
      ensures r == Value() % TWO64
    {
      Low64(pn[..]);
      r := pn[0] + pn[1] * B;  // the or of disjoint bits
    }
  }

  /** The position of the highest bit of a limb that is not zero: bit 0 is not tested. */
  method HighBit(x: Limb) returns (bits: nat)
    requires x != 0
    ensures bits < 32 && Pow(2, bits) <= x < Pow(2, bits + 1)
  {
    hide Pow;
    PowOfTwo32();
    bits := 31;
    while bits > 0
      invariant bits < 32 && x < Pow(2, bits + 1)
    {
      PowPositive(2, bits);
      PowNext(2, bits);
      TopBit(x, Pow(2, bits));
      if x / Pow(2, bits) % 2 == 1 {
        return;
      }
      bits := bits - 1;
    }
    Squares(2);
    PowNext(2, 0);
  }

  // ----- The arithmetic of one step, in numbers -----

  lemma HighLimb(b: nat)
    requires b < TWO64
    ensures 0 <= b / B < B
  {
    DivideSplits(b, B);
  }

  lemma TwoLimbs(s: seq<Limb>)
    requires |s| == WIDTH && forall i :: 2 <= i < WIDTH ==> s[i] == 0
    ensures Num(s) == s[0] + s[1] * B
  {
    NumSplit(s, 2);
    NumZero(s[2..]);
    NumNext(s, 0);
    NumNext(s, 1);
    assert s[..0] == [] && Pow(B, 0) == 1 && Pow(B, 1) == B;
  }

  lemma Low64(s: seq<Limb>)
    requires |s| == WIDTH
    ensures Num(s) % TWO64 == s[0] + s[1] * B
  {
    hide Num;
    NumSplit(s, 2);
    NumNext(s, 0);
    NumNext(s, 1);
    NumZero([]);
    assert s[..0] == [] && Pow(B, 0) == 1 && Pow(B, 1) == B && Pow(B, 2) == TWO64;
    DivideUnique(Num(s), TWO64, Num(s[2..]));
  }

  lemma FirstLimb(s: seq<Limb>)
    requires |s| > 0
    ensures Num(s[..1]) == s[0] && Pow(B, 1) == B
  {
    NumNext(s, 0);
    assert s[..0] == [] && Pow(B, 0) == 1;
  }

  lemma WholePrefix(s: seq<Limb>, a: seq<Limb>, b: seq<Limb>)
    requires |s| == |a| == |b| == WIDTH
    ensures s[..WIDTH] == s && a[..WIDTH] == a && b[..WIDTH] == b
  {}

  lemma AddStep(carry: nat, a: seq<Limb>, b: seq<Limb>, i: nat, sum: nat)
    requires i < |a| && i < |b| && carry <= 1 && sum + carry * Pow(B, i) == Num(a[..i]) + Num(b[..i])
    ensures var n := carry + a[i] + b[i];
      0 <= n / B <= 1 && sum + n % B * Pow(B, i) + n / B * Pow(B, i + 1) == Num(a[..i + 1]) + Num(b[..i + 1])
  {
    hide Num, Pow;
    var n := carry + a[i] + b[i];
    NumNext(a, i);
    NumNext(b, i);
    PowNext(B, i);
    CarryOn(n, Pow(B, i));
    MulAdd(carry + a[i], b[i], Pow(B, i));
    MulAdd(carry, a[i], Pow(B, i));
  }

  lemma {:induction false} ComplementMeans(s: seq<Limb>, t: seq<Limb>)
    requires |s| == |t| && forall i :: 0 <= i < |s| ==> t[i] == B - 1 - s[i]
    ensures Num(s) + Num(t) + 1 == Pow(B, |s|)
  {
    if s != [] {
      var m := |s| - 1;
      ComplementMeans(s[..m], t[..m]);
      MulAdd(s[m], t[m], Pow(B, m));
      PowNext(B, m);
      MulSubtract(B, 1, Pow(B, m));
    }
  }

  lemma AddNegated(x: nat, y: nat, m: nat)
    requires m > 0
    ensures (x + (0 - y) % m) % m == (x - y) % m
  {
    DivideSplits(0 - y, m);
    DivideSplits(x - y, m);
    var q := (0 - y) / m;
    MulSubtract((x - y) / m, q, m);
    DivideUnique(x + (0 - y) % m, m, (x - y) / m - q);
  }

  /** The limbs from i on being the same, the numbers differ as their first i limbs do. */
  lemma Untouched(s: seq<Limb>, a: seq<Limb>, i: nat)
    requires i <= |s| == |a| && s[i..] == a[i..]
    ensures Num(s) - Num(s[..i]) == Num(a) - Num(a[..i])
  {
    NumSplit(s, i);
    NumSplit(a, i);
  }

  lemma IncrementStep(x: Limb, p: nat)
    ensures (x + 1) % B * p + (if (x + 1) % B == 0 then B * p else 0) == x * p + p
  {
    MulAdd(x, 1, p);
  }

  lemma DecrementStep(x: Limb, p: nat)
    ensures (x - 1) % B * p + p == x * p + (if (x - 1) % B == B - 1 then B * p else 0)
  {
    MulAdd((x - 1) % B, 1, p);
  }

  lemma ProductFits(x: nat, y: nat, m: nat)
    requires x <= m && y <= m
    ensures x * y <= m * m
  {
    MulMonotone(x, m, y);
    MulMonotone(y, m, m);
  }

  /** The 64-bit accumulator never overflows. */
  lemma AccumulatorFits(x: nat, y: nat, carry: nat, limb: nat)
    requires x < B && y < B && carry < B && limb < B
    ensures 0 <= carry + limb + x * y < TWO64
    ensures 0 <= (carry + limb + x * y) / B < B
  {
    ProductFits(x, y, B - 1);
    HighLimb(carry + limb + x * y);
  }

  lemma MulStep32(carry: nat, b32: Limb, x: Limb, sum: nat, a: nat, p: nat)
    requires sum + carry * p == a * b32
    ensures var n := carry + b32 * x; n / B >= 0 && sum + n % B * p + n / B * (B * p) == (a + x * p) * b32
  {
    var n := carry + b32 * x;
    CarryOn(n, p);
    MulAdd(carry, b32 * x, p);
    Swap3(b32, x, p);
    MulAdd(a, x * p, b32);
  }

  lemma Swap3(a: int, b: int, c: int)
    ensures a * b * c == b * c * a
  {
    MulAssociate(a, b, c);
  }

  lemma RowStep(carry: nat, x: Limb, limb: Limb, y: Limb, sum: nat, before: nat, b: nat, pj: nat, pi: nat, p: nat)
    requires sum + carry * p == before + x * pj * b && p == pj * pi
    ensures var n := carry + limb + x * y;
      n / B >= 0 && sum + n % B * p + n / B * (B * p) == before + limb * p + x * pj * (b + y * pi)
  {
    var n := carry + limb + x * y;
    CarryOn(n, p);
    MulAdd(carry + limb, x * y, p);
    MulAdd(carry, limb, p);
    RowAlgebra(x, y, b, pj, pi);
  }

  lemma RowAlgebra(x: int, y: int, b: int, pj: int, pi: int)
    ensures x * pj * (b + y * pi) == x * pj * b + x * y * (pj * pi)
  {
    assert x * pj * (b + y * pi) == x * pj * b + x * pj * (y * pi);
    assert x * pj * (y * pi) == x * y * (pj * pi);
  }

  lemma RowNext(carry: nat, x: Limb, p: seq<Limb>, b: seq<Limb>, i: nat, j: nat, sum: nat)
    requires i + j < |p| && i < |b| && sum + carry * Pow(B, i + j) == Num(p[..i + j]) + x * Pow(B, j) * Num(b[..i])
    ensures var n := carry + p[i + j] + x * b[i];
      && 0 <= n / B
      && sum + n % B * Pow(B, i + j) + n / B * Pow(B, i + 1 + j) == Num(p[..i + 1 + j]) + x * Pow(B, j) * Num(b[..i + 1])
  {
    hide Num, Pow;
    NumNext(p, i + j);
    NumNext(b, i);
    PowAdd(B, j, i);
    PowNext(B, i + j);
    RowStep(carry, x, p[i + j], b[i], sum, Num(p[..i + j]), Num(b[..i]), Pow(B, j), Pow(B, i), Pow(B, i + j));
  }

  lemma RowDone(r: seq<Limb>, carry: nat, p: seq<Limb>, b: seq<Limb>, x: Limb, i: nat, j: nat)
    requires |r| == |p| == |b| == i + j == WIDTH
    requires Num(r[..i + j]) + carry * Pow(B, i + j) == Num(p[..i + j]) + x * Pow(B, j) * Num(b[..i])
    ensures Num(r) == (Num(p) + x * Pow(B, j) * Num(b)) % TWO256()
  {
    hide Num, Pow;
    assert r[..i + j] == r && p[..i + j] == p;
    NumSplit(b, i);
    PowAdd(B, i, j);
    RowEnds(Num(r), carry, Num(p), x, Pow(B, j), Num(b), Num(b[..i]), Num(b[i..]), Pow(B, i), TWO256());
    Wrap(r, carry + x * Num(b[i..]), Num(p) + x * Pow(B, j) * Num(b));
  }

  lemma RowEnds(r: nat, carry: nat, before: nat, x: nat, pj: nat, b: nat, lo: nat, hi: nat, pi: nat, m: nat)
    requires r + carry * m == before + x * pj * lo && b == lo + hi * pi && pi * pj == m
    ensures r + (carry + x * hi) * m == before + x * pj * b
  {
    RowAlgebra(x, hi, lo, pj, pi);
    MulAdd(carry, x * hi, m);
  }

  lemma RowsAdd(a: nat, x: nat, p: nat, b: nat, m: nat)
    requires m > 0
    ensures (a * b % m + x * p * b) % m == (a + x * p) * b % m
  {
    MulAdd(a, x * p, b);
    var t := x * p * b;
    DivideSplits(a * b, m);
    DivideSplits(a * b % m + t, m);
    var q, q' := a * b / m, (a * b % m + t) / m;
    MulAdd(q, q', m);
    DivideUnique(a * b + t, m, q + q');
  }

  lemma HigherLimbDecides(s: seq<Limb>, t: seq<Limb>, i: nat)
    requires i < |s| == |t| && s[i] < t[i] && forall k :: i < k < |s| ==> s[k] == t[k]
    ensures Num(s) < Num(t)
  {
    assert s[i + 1..] == t[i + 1..];
    NumSplit(s, i + 1);
    NumSplit(t, i + 1);
    NumNext(s, i);
    NumNext(t, i);
    NumBound(s[..i]);
    var x: int, y: int := s[i], t[i];
    MulMonotone(x + 1, y, Pow(B, i));
    MulAdd(x, 1, Pow(B, i));
  }

  lemma LimbShows(s: seq<Limb>, i: nat)
    requires 2 <= i < |s| && s[i] != 0
    ensures Num(s) >= TWO64
  {
    hide Num, Pow;
    NumSplit(s, i + 1);
    NumNext(s, i);
    PowGrows(B, 2, i);
    Squares(B);
    var x: int := s[i];
    MulMonotone(1, x, Pow(B, i));
    assert Num(s[i + 1..]) * Pow(B, i + 1) >= 0;
  }

  lemma TwoDigits(lo: Limb, hi: Limb, b: nat)
    requires hi != b / B
    ensures lo + hi * B != b
  {
    DivideUnique(lo + hi * B, B, hi);
  }

  lemma TopBit(x: nat, p: nat)
    requires p > 0 && x < 2 * p
    ensures x / p % 2 == 1 <==> x >= p
  {
    if x < p { DivideUnique(x, p, 0); } else { DivideUnique(x, p, 1); }
  }

  lemma HighLimbBits(s: seq<Limb>, pos: nat, bits: nat)
    requires pos < |s| && forall k :: pos < k < |s| ==> s[k] == 0
    requires Pow(2, bits) <= s[pos] < Pow(2, bits + 1)
    ensures Pow(2, 32 * pos + bits) <= Num(s) < Pow(2, 32 * pos + bits + 1)
  {
    hide Num, Pow;
    NumSplit(s, pos + 1);
    NumZero(s[pos + 1..]);
    NumNext(s, pos);
    NumBound(s[..pos]);
    PowShift(pos, bits);
    PowShift(pos, bits + 1);
    var x: int := s[pos];
    MulMonotone(Pow(2, bits), x, Pow(B, pos));
    MulMonotone(x + 1, Pow(2, bits + 1), Pow(B, pos));
    MulAdd(x, 1, Pow(B, pos));
  }

  // ----- Shifts, limb by limb -----

  lemma ShlOutStart(a: seq<Limb>, k: nat, s: nat)
    requires s < 32
    ensures forall m :: 0 <= m < |a| && m < k ==> ShlLimb(a, k, s, m) == 0
    ensures k <= |a| ==> ShlOut(a, k, s, k) == 0
  {}

  lemma ShlOutIs(a: seq<Limb>, k: nat, s: nat, i: nat)
    requires s < 32 && i + k + 1 <= |a|
    ensures ShlOut(a, k, s, i + k + 1) == if s != 0 then Shr(a[i], 32 - s) else 0
  {}

  /** The parts that meet in a limb have no bits in common. */
  lemma ShlOr(a: seq<Limb>, k: nat, s: nat, i: nat)
    requires s < 32 && i + k < |a|
    ensures Or(ShlOut(a, k, s, i + k), Shl(a[i], s)) == ShlLimb(a, k, s, i + k) < B
  {
    hide Or, Pow;
    var hi := ShlOut(a, k, s, i + k);
    if hi == 0 {
      OrZero(Shl(a[i], s));
    } else {
      ShlParts(a[i], s);
      ShlParts(a[i - 1], s);
      PowSplits(s);
      DivideUnique(hi, Pow(2, s), 0);
      OrDisjoint(a[i] % Pow(2, 32 - s), hi, s);
      RoomAbove(a[i] % Pow(2, 32 - s), Pow(2, 32 - s), Pow(2, s), hi);
    }
  }

  lemma RoomAbove(x: nat, q: nat, p: nat, y: nat)
    requires x < q && y < p && p * q == B
    ensures x * p + y < B
  {
    MulMonotone(x + 1, q, p);
    MulAdd(x, 1, p);
  }

  lemma ShrOr(a: seq<Limb>, k: nat, s: nat, m: nat)
    requires s < 32 && m + k + 1 < |a|
    ensures s != 0 ==> Or(Shr(a[m + k], s), Shl(a[m + k + 1], 32 - s)) == ShrLimb(a, k, s, m) < B
    ensures s == 0 ==> Shr(a[m + k], s) == ShrLimb(a, k, s, m)
  {
    hide Or, Pow;
    if s != 0 {
      var lo := Shr(a[m + k], s);
      ShrParts(a[m + k], s);
      ShrParts(a[m + k + 1], s);
      PowSplits(s);
      DivideUnique(lo, Pow(2, 32 - s), 0);
      OrDisjoint(a[m + k + 1] % Pow(2, s), lo, 32 - s);
      RoomAbove(a[m + k + 1] % Pow(2, s), Pow(2, s), Pow(2, 32 - s), lo);
    }
  }

  lemma ShrTop(a: seq<Limb>, k: nat, s: nat, m: nat)
    requires s < 32 && m < |a|
    ensures m + k + 1 == |a| ==> ShrLimb(a, k, s, m) == Shr(a[m + k], s)
    ensures m + k >= |a| ==> ShrLimb(a, k, s, m) == 0
  {}

  // ----- Division -----

  /** The lowest d bits of a limb are not set. */
  ghost predicate LimbClear(x: Limb, d: int) {
    if d <= 0 then true else if d >= 32 then x == 0 else Pow(2, d) > 0 && x % Pow(2, d) == 0
  }

  /** The lowest n bits of a number are not set. */
  ghost predicate LowClear(s: seq<Limb>, n: int) {
    forall m {:trigger s[m]} :: 0 <= m < |s| ==> LimbClear(s[m], n - 32 * m)
  }

  lemma AllClear(s: seq<Limb>, n: nat)
    requires forall i :: 0 <= i < |s| ==> s[i] == 0
    ensures LowClear(s, n)
  {
    forall m | 0 <= m < |s| && 0 < n - 32 * m < 32 ensures LimbClear(s[m], n - 32 * m) {
      PowPositive(2, n - 32 * m);
      ModMultiple(0, Pow(2, n - 32 * m));
    }
  }

  lemma LimbStillClear(x: Limb, d: int)
    requires LimbClear(x, d + 1)
    ensures LimbClear(x, d)
  {
    hide Pow;
    if 0 < d < 32 {
      PowPositive(2, d);
      PowNext(2, d);
      if d == 31 {
        ModMultiple(0, Pow(2, d));
      } else {
        ModMultiple(2, Pow(2, d));
        ModTransitive(x, Pow(2, d + 1), Pow(2, d));
      }
    }
  }

  lemma StillClear(s: seq<Limb>, n: nat)
    requires LowClear(s, n + 1)
    ensures LowClear(s, n)
  {
    forall m | 0 <= m < |s| ensures LimbClear(s[m], n - 32 * m) { LimbStillClear(s[m], n - 32 * m); }
  }

  lemma BitIsFree(x: Limb, bit: nat)
    requires bit < 32 && LimbClear(x, bit + 1)
    ensures Or(x, Pow(2, bit)) == x + Pow(2, bit) < B && LimbClear(x + Pow(2, bit), bit)
  {
    hide Num, Pow, Or, LimbClear;
    PowPositive(2, bit);
    PowNext(2, bit);
    PowSplits(bit + 1);
    var p, q := Pow(2, bit), Pow(2, bit + 1);
    var h := x / q;
    ClearIsMultiple(x, bit + 1);
    FreeBit(x, p, q, h, Pow(2, 31 - bit));
    OrDisjoint(h, p, bit + 1);
    MultipleIsClear(x + p, bit);
  }

  lemma ClearIsMultiple(x: Limb, d: nat)
    requires 0 < d <= 32 && LimbClear(x, d) && Pow(2, d) > 0
    ensures x == x / Pow(2, d) * Pow(2, d)
  {
    hide Pow;
    DivideSplits(x, Pow(2, d));
    if d == 32 { DivideUnique(x, Pow(2, d), 0); }
  }

  lemma MultipleIsClear(x: Limb, d: nat)
    requires d < 32 && Pow(2, d) > 0 && x % Pow(2, d) == 0
    ensures LimbClear(x, d)
  {
    hide Pow;
  }

  lemma FreeBit(x: nat, p: nat, q: nat, h: nat, r: nat)
    requires p > 0 && q == 2 * p && x == h * q && x < B && q * r == B
    ensures p % q == p && x + p < B && (x + p) % p == 0
  {
    DivideUnique(p, q, 0);
    if h >= r { MulMonotone(r, h, q); }
    RoomAbove(h, r, q, p);
    assert x + p == (2 * h + 1) * p by { MulAdd(2 * h, 1, p); MulAssociate(2, h, p); }
    ModMultiple(2 * h + 1, p);
  }

  lemma LimbSet(s: seq<Limb>, t: seq<Limb>, k: nat, x: nat)
    requires k < |s| == |t| && t == s[k := t[k]] && t[k] == s[k] + x
    ensures Num(t) == Num(s) + x * Pow(B, k)
  {
    hide Num, Pow;
    assert t[..k] == s[..k] && t[k + 1..] == s[k + 1..];
    NumSplit(s, k + 1);
    NumSplit(t, k + 1);
    NumNext(s, k);
    NumNext(t, k);
    MulAdd(s[k], x, Pow(B, k));
    ghost var above := Num(s[k + 1..]) * Pow(B, k + 1);
    assert Num(t[k + 1..]) * Pow(B, k + 1) == above;
    assert Num(t) == Num(s[..k]) + (s[k] * Pow(B, k) + x * Pow(B, k)) + above;
  }

  /** With their highest bits aligned, the divisor still fits, and the dividend is less than twice of it. */
  lemma AlignedFits(n: nat, d: nat, numBits: nat, divBits: nat)
    requires numBits <= 256 && divBits > 0 && Pow(2, divBits - 1) <= d < Pow(2, divBits)
    requires numBits == 0 ==> n == 0
    requires numBits > 0 ==> Pow(2, numBits - 1) <= n < Pow(2, numBits)
    ensures divBits > numBits ==> n < d
    ensures divBits <= numBits ==> var shift := numBits - divBits;
      d * Pow(2, shift) % TWO256() == d * Pow(2, shift) && n < d * Pow(2, shift + 1)
  {
    hide Pow;
    PowPositive(2, divBits - 1);
    if divBits > numBits {
      PowGrows(2, numBits, divBits - 1);
    } else {
      var shift: int := numBits - divBits;
      PowAdd(2, divBits, shift);
      PowAdd(2, divBits - 1, shift + 1);
      MulMonotone(d, Pow(2, divBits), Pow(2, shift));
      MulMonotone(Pow(2, divBits - 1), d, Pow(2, shift + 1));
      PowPositive(2, shift);
      MulMonotone(d + 1, Pow(2, divBits), Pow(2, shift));
      MulAdd(d, 1, Pow(2, shift));
      PowGrows(2, numBits, 256);
      PowShift(WIDTH, 0);
      PowPositive(2, 0);
      PowZero(2);
      DivideUnique(d * Pow(2, shift), TWO256(), 0);
    }
  }

  lemma QuotientStep(n: nat, d: nat, q: nat, rest: nat, p: nat)
    requires n == q * d + rest && rest < d * (2 * p)
    ensures n == (q + p) * d + (rest - d * p) && rest - d * p < d * p
  {
    MulAdd(q, p, d);
    assert d * (2 * p) == 2 * (d * p);
  }

  lemma HalfAgain(d: nat, shift: nat)
    requires shift > 0
    ensures Pow(2, 1) == 2 && d * Pow(2, shift) / Pow(2, 1) == d * Pow(2, shift - 1)
  {
    var x := d * Pow(2, shift - 1);
    assert d * Pow(2, shift) == 2 * x;
    PowZero(2);
  }

  lemma RemainderIsSmall(d: nat)
    ensures d * Pow(2, 0) == d
  {}
}
