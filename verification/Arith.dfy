/** Multiplication, division and powers: the few facts the other modules need, one at a time. */
module Arith {

  const TWO32 := 0x1_0000_0000
  const TWO64 := 0x1_0000_0000_0000_0000

  function Max(a: int, b: int): (r: int)
    ensures r >= a && r >= b && (r == a || r == b)
  {
    if a < b then b else a
  }

  lemma MulMonotone(a: int, b: int, d: int)
    requires a <= b && d >= 0
    ensures a * d <= b * d
  {
    assert (b - a) * d >= 0;
    assert (b - a) * d == b * d - a * d;
  }

  lemma MulSubtract(a: int, b: int, d: int)
    ensures (a - b) * d == a * d - b * d
  {}

  lemma MulAdd(a: int, b: int, d: int)
    ensures (a + b) * d == a * d + b * d
  {}

  lemma MulAssociate(a: int, b: int, c: int)
    ensures a * b * c == a * (b * c)
  {}

  lemma DivideSplits(r: int, d: int)
    requires d > 0
    ensures r / d * d <= r < r / d * d + d
    ensures r == r / d * d + r % d
  {
    assert r == d * (r / d) + r % d;
  }

  lemma DivideUnique(r: int, d: int, n: int)
    requires d > 0 && n * d <= r < n * d + d
    ensures r / d == n && r % d == r - n * d
  {
    var q := r / d;
    DivideSplits(r, d);
    if q < n {
      MulMonotone(q + 1, n, d);
      MulAdd(q, 1, d);
    } else if q > n {
      MulMonotone(n + 1, q, d);
      MulAdd(n, 1, d);
    }
  }

  lemma ModMultiple(q: int, d: int)
    requires d > 0
    ensures (q * d) % d == 0 && (q * d) / d == q
  {
    DivideUnique(q * d, d, q);
  }

  lemma ModOfDifference(r: int, m: int, d: int)
    requires d > 0 && m % d == 0
    ensures (r - m) % d == r % d
  {
    DivideSplits(r, d);
    DivideSplits(m, d);
    MulSubtract(r / d, m / d, d);
    DivideUnique(r - m, d, r / d - m / d);
  }

  lemma ModTransitive(t: int, d: int, e: int)
    requires d > 0 && e > 0 && t % d == 0 && d % e == 0
    ensures t % e == 0
  {
    DivideSplits(t, d);
    DivideSplits(d, e);
    MulAssociate(t / d, d / e, e);
    ModMultiple(t / d * (d / e), e);
  }

  lemma QuotientSmaller(r: nat, d: nat)
    requires d > 0
    ensures 0 <= r / d <= r
  {
    DivideSplits(r, d);
    if r / d > r { MulMonotone(r + 1, r / d, d); MulAdd(r, 1, d); MulMonotone(1, d, r); }
    if r / d < 0 { MulMonotone(r / d + 1, 0, d); MulAdd(r / d, 1, d); }
  }
}
