/** Powers of natural numbers. */
module Powers {
  import opened Arith

  function Pow(b: nat, e: nat): nat {
    if e == 0 then 1 else b * Pow(b, e - 1)
  }

  lemma PowNext(b: nat, e: nat)
    ensures Pow(b, e + 1) == b * Pow(b, e)
  {}

  lemma PowZero(b: nat)
    ensures Pow(b, 0) == 1 && Pow(b, 1) == b
  {}

  lemma {:induction false} PowPositive(b: nat, e: nat)
    requires b > 0
    ensures Pow(b, e) > 0
  {
    if e > 0 {
      PowPositive(b, e - 1);
      MulMonotone(1, b, Pow(b, e - 1));
    }
  }

  /** x >> k */
  function ShiftDown(x: nat, k: nat): (r: nat)
    ensures Pow(2, k) > 0 && r == x / Pow(2, k) && r <= x
  {
    PowPositive(2, k);
    QuotientSmaller(x, Pow(2, k));
    x / Pow(2, k)
  }

  lemma {:induction false} PowAdd(b: nat, d: nat, e: nat)
    ensures Pow(b, d + e) == Pow(b, d) * Pow(b, e)
  {
    if d > 0 {
      PowAdd(b, d - 1, e);
      MulAssociate(b, Pow(b, d - 1), Pow(b, e));
      assert d + e - 1 == (d - 1) + e;
    }
  }

  lemma {:induction false} PowOfPow(b: nat, d: nat, e: nat)
    ensures d * e >= 0 && Pow(b, d * e) == Pow(Pow(b, d), e)
  {
    if e == 0 {
      assert d * e == 0;
    } else {
      PowOfPow(b, d, e - 1);
      assert d * e == d + d * (e - 1);
      PowAdd(b, d, d * (e - 1));
    }
  }

  lemma {:induction false} PowGrows(b: nat, d: nat, e: nat)
    requires b > 0 && d <= e
    ensures Pow(b, d) <= Pow(b, e)
  {
    PowAdd(b, d, e - d);
    PowPositive(b, e - d);
    PowPositive(b, d);
    MulMonotone(1, Pow(b, e - d), Pow(b, d));
  }

  lemma {:induction false} BaseGrows(a: nat, b: nat, e: nat)
    requires a <= b
    ensures Pow(a, e) <= Pow(b, e)
  {
    if e > 0 {
      BaseGrows(a, b, e - 1);
      MulMonotone(a, b, Pow(a, e - 1));
      MulMonotone(Pow(a, e - 1), Pow(b, e - 1), b);
    }
  }

  lemma {:induction false} BaseGrowsStrictly(a: nat, b: nat, e: nat)
    requires a < b && e > 0
    ensures Pow(a, e) < Pow(b, e)
  {
    if e == 1 {
      assert Pow(a, 0) == 1 && Pow(b, 0) == 1;
    } else {
      BaseGrowsStrictly(a, b, e - 1);
      MulMonotone(a, b, Pow(a, e - 1));
      MulMonotone(Pow(a, e - 1) + 1, Pow(b, e - 1), b);
      MulAdd(Pow(a, e - 1), 1, b);
    }
  }

  /**
    If a^q <= b^p, then any m digits to base a fit into m * p / q + 1 digits to base b: the bound behind
    buffers whose size is a rounded logarithm.
    */
  lemma RoundedLogarithm(a: nat, b: nat, p: nat, q: nat, m: nat)
    requires b > 0 && q > 0 && Pow(a, q) <= Pow(b, p)
    ensures m * p / q >= 0 && Pow(a, m) <= Pow(b, m * p / q + 1)
  {
    DivideSplits(m * p, q);
    var k := m * p / q + 1;
    assert m * p >= 0;
    if k <= 0 { MulMonotone(k, 0, q); MulAdd(m * p / q, 1, q); }
    PowOfPow(a, m, q);
    PowOfPow(a, q, m);
    assert m * q == q * m;
    BaseGrows(Pow(a, q), Pow(b, p), m);
    PowOfPow(b, p, m);
    MulAdd(m * p / q, 1, q);
    assert p * m == m * p;
    PowGrows(b, p * m, k * q);
    PowOfPow(b, k, q);
    if Pow(a, m) > Pow(b, k) {
      BaseGrowsStrictly(Pow(b, k), Pow(a, m), q);
      assert false;
    }
  }

  /** Powers whose exponents are powers of two, by squaring. */
  lemma Squares(b: nat)
    ensures Pow(b, 1) == b && Pow(b, 2) == b * b && Pow(b, 4) == Pow(b, 2) * Pow(b, 2) && Pow(b, 8) == Pow(b, 4) * Pow(b, 4)
    ensures Pow(b, 16) == Pow(b, 8) * Pow(b, 8) && Pow(b, 32) == Pow(b, 16) * Pow(b, 16) && Pow(b, 64) == Pow(b, 32) * Pow(b, 32)
  {
    PowAdd(b, 1, 1);
    PowAdd(b, 2, 2);
    PowAdd(b, 4, 4);
    PowAdd(b, 8, 8);
    PowAdd(b, 16, 16);
    PowAdd(b, 32, 32);
  }
}
