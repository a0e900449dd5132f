/**
  Arithmetic of coin counts over a chain of denominations, each dividing the next: the exchange
  argument behind the greedy algorithms of denomination_functions.cpp.
  A denomination is identified with its amount, ZerocoinDenominationToAmount(denom).
  */
module Denominations {
  import opened Arith

  const COIN := 100000000

  const ZerocoinDenomList := [1 * COIN, 5 * COIN, 10 * COIN, 50 * COIN, 100 * COIN, 500 * COIN, 1000 * COIN, 5000 * COIN]

  ghost predicate Chain(ds: seq<int>) {
    && (forall i :: 0 <= i < |ds| ==> ds[i] > 0)
    && (forall i, j :: 0 <= i < j < |ds| ==> ds[i] < ds[j] && ds[j] % ds[i] == 0)
  }

  lemma ZerocoinDenomListIsChain()
    ensures Chain(ZerocoinDenomList)
  {
    var ds := ZerocoinDenomList;
    forall i, j | 0 <= i < j < |ds| ensures ds[i] < ds[j] && ds[j] % ds[i] == 0 {
      assert i in {0, 1, 2, 3, 4, 5, 6} && j in {1, 2, 3, 4, 5, 6, 7};
    }
  }

  /** How many coins of each denomination. */
  type Counts = map<int, int>

  function At(m: Counts, d: int): int {
    if d in m then m[d] else 0
  }

  /** The amount that the first k denominations of m come to. */
  function Value(ds: seq<int>, m: Counts, k: nat): int
    requires k <= |ds|
  {
    if k == 0 then 0 else Value(ds, m, k - 1) + At(m, ds[k - 1]) * ds[k - 1]
  }

  function Coins(ds: seq<int>, m: Counts, k: nat): int
    requires k <= |ds|
  {
    if k == 0 then 0 else Coins(ds, m, k - 1) + At(m, ds[k - 1])
  }

  ghost predicate NonNegative(ds: seq<int>, m: Counts) {
    forall i :: 0 <= i < |ds| ==> At(m, ds[i]) >= 0
  }

  /** m uses no more than held, and nothing negative. */
  ghost predicate Within(ds: seq<int>, m: Counts, held: Counts) {
    forall i :: 0 <= i < |ds| ==> 0 <= At(m, ds[i]) <= At(held, ds[i])
  }

  // ----- Sums -----

  lemma {:induction false} ValueAgrees(ds: seq<int>, m: Counts, m': Counts, k: nat)
    requires k <= |ds| && forall i :: 0 <= i < k ==> At(m, ds[i]) == At(m', ds[i])
    ensures Value(ds, m, k) == Value(ds, m', k) && Coins(ds, m, k) == Coins(ds, m', k)
  {
    if k > 0 { ValueAgrees(ds, m, m', k - 1); }
  }

  /** Changing the count of one denomination moves the sum by as many coins. */
  lemma {:induction false} ValueUpdate(ds: seq<int>, m: Counts, j: nat, n: int, k: nat)
    requires Chain(ds) && j < k <= |ds|
    ensures Value(ds, m[ds[j] := n], k) == Value(ds, m, k) + (n - At(m, ds[j])) * ds[j]
    ensures Coins(ds, m[ds[j] := n], k) == Coins(ds, m, k) + n - At(m, ds[j])
  {
    if j == k - 1 {
      ValueAgrees(ds, m, m[ds[j] := n], j);
      assert n * ds[j] - At(m, ds[j]) * ds[j] == (n - At(m, ds[j])) * ds[j];
    } else {
      ValueUpdate(ds, m, j, n, k - 1);
    }
  }

  lemma {:induction false} ValueNonNegative(ds: seq<int>, m: Counts, k: nat)
    requires Chain(ds) && k <= |ds| && NonNegative(ds, m)
    ensures Value(ds, m, k) >= 0 && Coins(ds, m, k) >= 0
  {
    if k > 0 {
      ValueNonNegative(ds, m, k - 1);
      assert At(m, ds[k - 1]) * ds[k - 1] >= 0;
    }
  }

  /** With every coin below d, an amount of n times d takes at least n coins. */
  lemma {:induction false} ValueBelow(ds: seq<int>, m: Counts, k: nat, d: int)
    requires Chain(ds) && k <= |ds| && NonNegative(ds, m) && forall i :: 0 <= i < k ==> ds[i] <= d
    ensures Value(ds, m, k) <= Coins(ds, m, k) * d
  {
    if k > 0 {
      ValueBelow(ds, m, k - 1, d);
      var a := At(m, ds[k - 1]);
      MulMonotone(ds[k - 1], d, a);
      MulAdd(Coins(ds, m, k - 1), a, d);
    }
  }

  function Minus(ds: seq<int>, m: Counts, e: Counts): Counts {
    map d | d in ds :: At(m, d) - At(e, d)
  }

  lemma {:induction false} ValueMinus(ds: seq<int>, m: Counts, e: Counts, k: nat)
    requires k <= |ds|
    ensures Value(ds, Minus(ds, m, e), k) == Value(ds, m, k) - Value(ds, e, k)
    ensures Coins(ds, Minus(ds, m, e), k) == Coins(ds, m, k) - Coins(ds, e, k)
  {
    if k > 0 {
      ValueMinus(ds, m, e, k - 1);
      var d := ds[k - 1];
      MulSubtract(At(m, d), At(e, d), d);
    }
  }

  // ----- The exchange argument -----

  /** The two ways to pay a multiple of d with at most a coins of value d. */
  lemma PayStep(t: int, d: int, a: int)
    requires d > 0 && t >= 0 && t % d == 0 && a >= 0
    ensures t / d <= a ==> t / d * d == t && t / d >= 0
    ensures t / d > a ==> a * d <= t && (t - a * d) % d == 0
  {
    DivideSplits(t, d);
    if t / d > a {
      MulMonotone(a, t / d, d);
      ModMultiple(a, d);
      ModOfDifference(t, a * d, d);
    } else if t / d < 0 {
      MulMonotone(t / d, -1, d);
    }
  }

  /**
    Any counts worth at least t contain counts worth exactly t, when t is a multiple of the
    largest denomination in play.
    */
  lemma {:induction false} PayExactly(ds: seq<int>, c: Counts, k: nat, t: int) returns (e: Counts)
    requires Chain(ds) && k <= |ds| && NonNegative(ds, c)
    requires 0 <= t <= Value(ds, c, k) && (k > 0 ==> t % ds[k - 1] == 0)
    ensures Within(ds, e, c) && Value(ds, e, k) == t
  {
    e := map[];
    if k > 0 {
      var d, a := ds[k - 1], At(c, ds[k - 1]);
      PayStep(t, d, a);
      if t / d <= a {
        e := map[d := t / d];
        ValueAgrees(ds, e, map[], k - 1);
        ValueOfNone(ds, k - 1);
      } else {
        var rest := t - a * d;
        if k > 1 { ModTransitive(rest, d, ds[k - 2]); }
        var lower := PayExactly(ds, c, k - 1, rest);
        e := lower[d := a];
        ValueAgrees(ds, e, lower, k - 1);
      }
    }
  }

  lemma {:induction false} ValueOfNone(ds: seq<int>, k: nat)
    requires k <= |ds|
    ensures Value(ds, map[], k) == 0 && Coins(ds, map[], k) == 0
  {
    if k > 0 { ValueOfNone(ds, k - 1); }
  }

  // ----- Greedy, from the highest denomination down -----

  /**
    When to take another coin of value d with r still to go:
    Floor while r >= d, Strict while r > d, Ceiling while r > 0; Unlimited is Floor with no limit.
    */
  datatype Rule = Floor | Strict | Ceiling | Unlimited

  predicate Wants(rule: Rule, d: int, r: int) {
    match rule
    case Floor => r >= d
    case Strict => r > d
    case Ceiling => r > 0
    case Unlimited => r >= d
  }

  function Take(rule: Rule, held: int, d: int, r: int): int
    requires d > 0
  {
    var wanted := match rule
      case Floor => r / d
      case Strict => (r - 1) / d
      case Ceiling => (r + d - 1) / d
      case Unlimited => r / d;
    if wanted <= 0 then 0 else if rule.Unlimited? || wanted <= held then wanted else held
  }

  /** Take, without division: how many coins, what is then left, and why it stops there. */
  lemma TakeFacts(rule: Rule, held: int, d: int, r: int)
    requires d > 0 && held >= 0
    ensures var n := Take(rule, held, d, r); var left := r - n * d;
      && n >= 0 && (n <= held || rule.Unlimited?)
      && (n > 0 ==> Wants(rule, d, left + d))
      && (Wants(rule, d, left) ==> n == held && !rule.Unlimited?)
  {
    var shifted := match rule case Strict => r - 1 case Ceiling => r + d - 1 case _ => r;
    var q, n := shifted / d, Take(rule, held, d, r);
    DivideSplits(shifted, d);
    if q <= 0 {
      MulMonotone(q, 0, d);
    } else if !rule.Unlimited? && held < q {
      MulMonotone(n, q - 1, d);
      MulSubtract(q, 1, d);
    }
  }

  /** The inner do-while loops stop exactly after Take coins. */
  lemma TakeIsLoop(rule: Rule, held: int, d: int, r: int, n: int)
    requires d > 0 && held >= 0 && 0 <= n && (rule.Unlimited? || n <= held)
    requires n > 0 ==> Wants(rule, d, r - n * d + d)
    requires !(Wants(rule, d, r - n * d) && (rule.Unlimited? || n < held))
    ensures n == Take(rule, held, d, r)
  {
    TakeFacts(rule, held, d, r);
    var m := Take(rule, held, d, r);
    if m < n {
      MulMonotone(m, n - 1, d);
      MulSubtract(n, 1, d);
    } else if n < m {
      MulMonotone(n, m - 1, d);
      MulSubtract(m, 1, d);
    }
  }

  /** What is still to pay after the denominations from index i up have been dealt with. */
  function Rest(rule: Rule, ds: seq<int>, held: Counts, target: int, i: nat): int
    requires i <= |ds| && forall j :: 0 <= j < |ds| ==> ds[j] > 0
    decreases |ds| - i
  {
    if i == |ds| then target else
      Rest(rule, ds, held, target, i + 1) - TakeAt(rule, ds, held, target, i) * ds[i]
  }

  function TakeAt(rule: Rule, ds: seq<int>, held: Counts, target: int, i: nat): int
    requires i < |ds| && forall j :: 0 <= j < |ds| ==> ds[j] > 0
    decreases |ds| - i, 0
  {
    Take(rule, At(held, ds[i]), ds[i], Rest(rule, ds, held, target, i + 1))
  }

  /** The counts the greedy loop ends with. */
  ghost predicate IsGreedy(rule: Rule, ds: seq<int>, held: Counts, target: int, used: Counts)
    requires Chain(ds)
  {
    forall i :: 0 <= i < |ds| ==> At(used, ds[i]) == TakeAt(rule, ds, held, target, i)
  }

  /** The greedy counts from index i up, and nothing below. */
  ghost predicate GreedyFrom(rule: Rule, ds: seq<int>, held: Counts, target: int, used: Counts, i: nat)
    requires Chain(ds)
  {
    && (forall j :: 0 <= j < i && j < |ds| ==> At(used, ds[j]) == 0)
    && (forall j :: i <= j < |ds| ==> At(used, ds[j]) == TakeAt(rule, ds, held, target, j))
  }

  lemma RestAtEnd(rule: Rule, ds: seq<int>, held: Counts, target: int)
    requires Chain(ds)
    ensures Rest(rule, ds, held, target, |ds|) == target
  {}

  lemma RestStep(rule: Rule, ds: seq<int>, held: Counts, target: int, i: nat)
    requires Chain(ds) && i < |ds|
    ensures TakeAt(rule, ds, held, target, i) == Take(rule, At(held, ds[i]), ds[i], Rest(rule, ds, held, target, i + 1))
    ensures Rest(rule, ds, held, target, i) ==
      Rest(rule, ds, held, target, i + 1) - Take(rule, At(held, ds[i]), ds[i], Rest(rule, ds, held, target, i + 1)) * ds[i]
  {
    hide Take;
  }

  lemma GreedyAtEnd(rule: Rule, ds: seq<int>, held: Counts, target: int)
    requires Chain(ds)
    ensures GreedyFrom(rule, ds, held, target, map[], |ds|)
  {
    hide Take, TakeAt;
  }

  /** Recording what is taken of one denomination, which may be left out when that is nothing. */
  lemma GreedyStep(rule: Rule, ds: seq<int>, held: Counts, target: int, used: Counts, i: nat)
    requires Chain(ds) && i < |ds| && GreedyFrom(rule, ds, held, target, used, i + 1)
    ensures GreedyFrom(rule, ds, held, target, used[ds[i] := TakeAt(rule, ds, held, target, i)], i)
    ensures TakeAt(rule, ds, held, target, i) == 0 ==> GreedyFrom(rule, ds, held, target, used, i)
  {
    hide Take, Rest, TakeAt;
  }

  lemma GreedyAtStart(rule: Rule, ds: seq<int>, held: Counts, target: int, used: Counts)
    requires Chain(ds) && GreedyFrom(rule, ds, held, target, used, 0)
    ensures IsGreedy(rule, ds, held, target, used)
  {
    hide Take, Rest, TakeAt;
  }

  lemma {:induction false} GreedyAccounts(rule: Rule, ds: seq<int>, held: Counts, target: int, used: Counts, k: nat)
    requires Chain(ds) && k <= |ds| && IsGreedy(rule, ds, held, target, used)
    ensures Value(ds, used, k) == Rest(rule, ds, held, target, k) - Rest(rule, ds, held, target, 0)
  {
    if k > 0 { GreedyAccounts(rule, ds, held, target, used, k - 1); }
  }

  lemma GreedyWithin(rule: Rule, ds: seq<int>, held: Counts, target: int, used: Counts)
    requires Chain(ds) && NonNegative(ds, held) && IsGreedy(rule, ds, held, target, used)
    ensures rule != Unlimited ==> Within(ds, used, held)
    ensures NonNegative(ds, used)
  {
    forall i | 0 <= i < |ds|
      ensures At(used, ds[i]) >= 0 && (rule != Unlimited ==> At(used, ds[i]) <= At(held, ds[i]))
    {
      assert At(used, ds[i]) == TakeAt(rule, ds, held, target, i);
    }
  }

  lemma TakeKeepsRange(rule: Rule, held: int, d: int, r: int)
    requires d > 0 && held >= 0 && rule != Ceiling
    ensures var left := r - Take(rule, held, d, r) * d;
      && left <= r
      && (rule.Strict? && r > 0 ==> left > 0)
      && (!rule.Strict? && r >= 0 ==> left >= 0)
      && (r <= 0 ==> left == r)
  {
    TakeFacts(rule, held, d, r);
    var n := Take(rule, held, d, r);
    MulMonotone(0, n, d);
    if n > 0 { MulMonotone(1, n, d); }
  }

  /** What the rest stays above: never negative by Floor, never 0 by Strict. */
  lemma {:induction false} RestStaysAbove(rule: Rule, ds: seq<int>, held: Counts, target: int, i: nat)
    requires Chain(ds) && NonNegative(ds, held) && i <= |ds| && rule != Ceiling
    ensures !rule.Strict? && target >= 0 ==> 0 <= Rest(rule, ds, held, target, i) <= target
    ensures rule.Strict? && target > 0 ==> 0 < Rest(rule, ds, held, target, i) <= target
    ensures target <= 0 ==> Rest(rule, ds, held, target, i) == target
    decreases |ds| - i
  {
    if i < |ds| {
      RestStaysAbove(rule, ds, held, target, i + 1);
      TakeKeepsRange(rule, At(held, ds[i]), ds[i], Rest(rule, ds, held, target, i + 1));
    }
  }

  /** Any way to pay r with a coins of value d and `lower` in smaller ones uses no more d's than greedy. */
  lemma CompareStep(rule: Rule, held: int, d: int, r: int, a: int, lower: int)
    requires d > 0 && held >= 0 && rule in {Floor, Unlimited} && a >= 0 && (rule.Floor? ==> a <= held)
    requires lower >= 0 && lower + a * d <= r
    ensures var n := Take(rule, held, d, r);
      && a <= n && (n - a) * d == n * d - a * d >= 0 && ((n - a) * d) % d == 0
  {
    TakeFacts(rule, held, d, r);
    var n := Take(rule, held, d, r);
    if a > n {
      MulMonotone(n + 1, a, d);
      MulAdd(n, 1, d);
    }
    MulSubtract(n, a, d);
    MulMonotone(0, n - a, d);
    ModMultiple(n - a, d);
  }

  /** Taking n coins' worth of d out of the denominations below d frees at least n coins. */
  lemma Withdraw(ds: seq<int>, c: Counts, k: nat, n: int) returns (c': Counts)
    requires Chain(ds) && k < |ds| && NonNegative(ds, c)
    requires n >= 0 && 0 <= n * ds[k] <= Value(ds, c, k)
    ensures Within(ds, c', c)
    ensures Value(ds, c', k) == Value(ds, c, k) - n * ds[k]
    ensures Coins(ds, c', k) + n <= Coins(ds, c, k)
  {
    var d := ds[k];
    ModMultiple(n, d);
    if k > 0 { ModTransitive(n * d, d, ds[k - 1]); }
    var e := PayExactly(ds, c, k, n * d);
    c' := Minus(ds, c, e);
    ValueMinus(ds, c, e, k);
    ValueBelow(ds, e, k, d);
    var freed := Coins(ds, e, k);
    if freed < n {
      MulMonotone(freed + 1, n, d);
      MulAdd(freed, 1, d);
    }
  }

  /** Counts worth r can be traded for counts that use as many d's as greedy takes, and no more coins. */
  lemma Exchange(rule: Rule, ds: seq<int>, held: Counts, c: Counts, k: nat, r: int) returns (c': Counts)
    requires Chain(ds) && k < |ds| && NonNegative(ds, c) && rule in {Floor, Unlimited}
    requires At(held, ds[k]) >= 0 && (rule.Floor? ==> At(c, ds[k]) <= At(held, ds[k]))
    requires Value(ds, c, k + 1) <= r
    requires r - Take(rule, At(held, ds[k]), ds[k], r) * ds[k] >= 0
    requires Value(ds, c, k + 1) - Take(rule, At(held, ds[k]), ds[k], r) * ds[k] >= 0
    ensures Within(ds, c', c)
    ensures var n := Take(rule, At(held, ds[k]), ds[k], r);
      && Value(ds, c', k) == Value(ds, c, k + 1) - n * ds[k]
      && Coins(ds, c', k) + n <= Coins(ds, c, k + 1)
  {
    var d, a := ds[k], At(c, ds[k]);
    ValueNonNegative(ds, c, k);
    CompareStep(rule, At(held, d), d, r, a, Value(ds, c, k));
    c' := Withdraw(ds, c, k, Take(rule, At(held, d), d, r) - a);
  }

  /** Greedy reaches the target exactly whenever any choice of held coins does. */
  lemma {:induction false} GreedyIsComplete(ds: seq<int>, held: Counts, target: int, c: Counts, i: nat)
    requires Chain(ds) && NonNegative(ds, held) && target >= 0 && i <= |ds|
    requires Within(ds, c, held) && Value(ds, c, i) == Rest(Floor, ds, held, target, i)
    ensures Rest(Floor, ds, held, target, 0) == 0
    decreases i
  {
    if i > 0 {
      RestStaysAbove(Floor, ds, held, target, i - 1);
      var c' := Exchange(Floor, ds, held, c, i - 1, Rest(Floor, ds, held, target, i));
      GreedyIsComplete(ds, held, target, c', i - 1);
    }
  }

  ghost predicate Payable(ds: seq<int>, held: Counts, target: int) {
    exists c: Counts :: Within(ds, c, held) && Value(ds, c, |ds|) == target
  }

  /** Greedy fails exactly when no choice of held coins comes to the target. */
  lemma GreedyIffPayable(ds: seq<int>, held: Counts, target: int)
    requires Chain(ds) && NonNegative(ds, held) && target >= 0
    ensures Rest(Floor, ds, held, target, 0) == 0 <==> Payable(ds, held, target)
  {
    if Rest(Floor, ds, held, target, 0) == 0 {
      var used := map d | d in ds :: TakeOf(ds, held, target, d);
      forall i | 0 <= i < |ds| ensures At(used, ds[i]) == TakeAt(Floor, ds, held, target, i) {
        TakeOfIndex(ds, held, target, i);
      }
      GreedyAccounts(Floor, ds, held, target, used, |ds|);
      GreedyWithin(Floor, ds, held, target, used);
    }
    if Payable(ds, held, target) {
      var c: Counts :| Within(ds, c, held) && Value(ds, c, |ds|) == target;
      GreedyIsComplete(ds, held, target, c, |ds|);
    }
  }

  ghost function TakeOf(ds: seq<int>, held: Counts, target: int, d: int): int
    requires Chain(ds) && d in ds
  {
    var i :| 0 <= i < |ds| && ds[i] == d;
    TakeAt(Floor, ds, held, target, i)
  }

  lemma TakeOfIndex(ds: seq<int>, held: Counts, target: int, i: nat)
    requires Chain(ds) && i < |ds|
    ensures TakeOf(ds, held, target, ds[i]) == TakeAt(Floor, ds, held, target, i)
  {
    forall j | 0 <= j < |ds| && ds[j] == ds[i] ensures j == i {}
  }

  /** No counts of the same amount have fewer coins than the greedy ones: of those held, or of all without a limit. */
  lemma {:induction false} GreedyIsFewest(rule: Rule, ds: seq<int>, held: Counts, target: int, used: Counts, c: Counts, i: nat)
    requires Chain(ds) && NonNegative(ds, held) && target >= 0 && i <= |ds| && rule in {Floor, Unlimited}
    requires IsGreedy(rule, ds, held, target, used)
    requires NonNegative(ds, c) && (rule.Floor? ==> Within(ds, c, held))
    requires Value(ds, c, i) == Value(ds, used, i)
    ensures Coins(ds, used, i) <= Coins(ds, c, i)
    decreases i
  {
    hide Value, Coins, Take, Rest, TakeAt, IsGreedy, Within;
    if i == 0 {
      CountsStep(ds, used, 0);
      CountsStep(ds, c, 0);
    } else {
      GreedyAccounts(rule, ds, held, target, used, i);
      GreedyTakes(rule, ds, held, target, used, i - 1);
      RestStep(rule, ds, held, target, i - 1);
      RestStaysAbove(rule, ds, held, target, 0);
      RestStaysAbove(rule, ds, held, target, i - 1);
      GreedyWithin(rule, ds, held, target, used);
      ValueNonNegative(ds, used, i - 1);
      CountsStep(ds, used, i);
      if rule.Floor? { WithinAt(ds, c, held, i - 1); }
      var c' := Exchange(rule, ds, held, c, i - 1, Rest(rule, ds, held, target, i));
      WithinTwice(ds, c', c, held);
      GreedyIsFewest(rule, ds, held, target, used, c', i - 1);
    }
  }

  lemma CountsStep(ds: seq<int>, m: Counts, k: nat)
    requires k <= |ds|
    ensures Value(ds, m, k) == if k == 0 then 0 else Value(ds, m, k - 1) + At(m, ds[k - 1]) * ds[k - 1]
    ensures Coins(ds, m, k) == if k == 0 then 0 else Coins(ds, m, k - 1) + At(m, ds[k - 1])
  {}

  lemma GreedyTakes(rule: Rule, ds: seq<int>, held: Counts, target: int, used: Counts, i: nat)
    requires Chain(ds) && i < |ds| && IsGreedy(rule, ds, held, target, used)
    ensures At(used, ds[i]) == TakeAt(rule, ds, held, target, i)
  {
    hide TakeAt;
  }

  lemma WithinAt(ds: seq<int>, c: Counts, held: Counts, i: nat)
    requires Within(ds, c, held) && i < |ds|
    ensures At(c, ds[i]) <= At(held, ds[i])
  {}

  lemma WithinTwice(ds: seq<int>, c: Counts, d: Counts, held: Counts)
    requires Within(ds, c, d)
    ensures NonNegative(ds, c) && (Within(ds, d, held) ==> Within(ds, c, held))
  {}

  /** Without a limit, greedy leaves less than one coin of the smallest denomination. */
  lemma UnlimitedRest(ds: seq<int>, target: int)
    requires Chain(ds) && |ds| > 0 && target >= 0
    ensures Rest(Unlimited, ds, map[], target, 0) == target % ds[0]
  {
    RestStaysAbove(Unlimited, ds, map[], target, 0);
    TakeFacts(Unlimited, 0, ds[0], Rest(Unlimited, ds, map[], target, 1));
    RestModulo(ds, target, 0);
    DivideUnique(Rest(Unlimited, ds, map[], target, 0), ds[0], 0);
  }

  lemma {:induction false} RestModulo(ds: seq<int>, target: int, i: nat)
    requires Chain(ds) && |ds| > 0 && i <= |ds|
    ensures Rest(Unlimited, ds, map[], target, i) % ds[0] == target % ds[0]
    decreases |ds| - i
  {
    if i < |ds| {
      RestModulo(ds, target, i + 1);
      var r, n := Rest(Unlimited, ds, map[], target, i + 1), TakeAt(Unlimited, ds, map[], target, i);
      ModMultiple(1, ds[0]);
      ModMultiple(n, ds[i]);
      ModTransitive(n * ds[i], ds[i], ds[0]);
      ModOfDifference(r, n * ds[i], ds[0]);
    }
  }
}
