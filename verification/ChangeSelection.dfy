/**
  Spends with change, from the number of coins held of each denomination. `ds` is
  zerocoinDenomList, in ascending order; a denomination that `held` lacks counts as none held.
  */
module ChangeSelection {
  import opened Arith
  import opened Denominations

  // ----- Spending with change -----

  /** The part of m that is of denomination `limit` or less. */
  function Below(m: Counts, limit: int): Counts {
    map d | d in m && d <= limit :: m[d]
  }

  /** The do-while of one denomination, under a rule for when another coin is wanted. */
  method GrabCoins(rule: Rule, coin: int, held: int, r: int) returns (n: int, nRemainingValue: int)
    requires coin > 0 && held >= 0
    ensures n == Take(rule, held, coin, r) && nRemainingValue == r - n * coin
  {
    n, nRemainingValue := 0, r;
    while Wants(rule, coin, nRemainingValue) && (rule.Unlimited? || n < held)
      invariant 0 <= n && (rule.Unlimited? || n <= held)
      invariant nRemainingValue == r - n * coin
      invariant n > 0 ==> Wants(rule, coin, nRemainingValue + coin)
      decreases nRemainingValue
    {
      MulAdd(n, 1, coin);
      n := n + 1;
      nRemainingValue := nRemainingValue - coin;
    }
    TakeIsLoop(rule, held, coin, r, n);
  }

  /**
    The descending loops of getSpendCoins, getChange, minimizeChange and calculateChange: they
    differ in when another coin is wanted, and minimizeChange skips denominations above a limit.
    */
  method GreedyPass(rule: Rule, ds: seq<int>, held: Counts, nValueTarget: int, limit: int)
    returns (used: Counts, nRemainingValue: int)
    requires Chain(ds) && NonNegative(ds, held)
    requires rule.Unlimited? ==> Top(ds) <= limit
    ensures IsGreedy(rule, ds, Below(held, limit), nValueTarget, used)
    ensures nRemainingValue == Rest(rule, ds, Below(held, limit), nValueTarget, 0)
  {
    hide Take, Rest, TakeAt, GreedyFrom, IsGreedy;
    ghost var below := Below(held, limit);
    used, nRemainingValue := map[], nValueTarget;
    var i := |ds|;
    RestAtEnd(rule, ds, below, nValueTarget);
    GreedyAtEnd(rule, ds, below, nValueTarget);
    while i > 0
      invariant 0 <= i <= |ds|
      invariant nRemainingValue == Rest(rule, ds, below, nValueTarget, i)
      invariant GreedyFrom(rule, ds, below, nValueTarget, used, i)
    {
      i := i - 1;
      RestStep(rule, ds, below, nValueTarget, i);
      GreedyStep(rule, ds, below, nValueTarget, used, i);
      if ds[i] <= limit {
        var n;
        n, nRemainingValue := GrabCoins(rule, ds[i], At(held, ds[i]), nRemainingValue);
        used := used[ds[i] := n];
      } else {
        NoneAboveLimit(rule, ds, held, limit, i, nRemainingValue);
      }
    }
    GreedyAtStart(rule, ds, below, nValueTarget, used);
  }

  lemma NoneAboveLimit(rule: Rule, ds: seq<int>, held: Counts, limit: int, i: nat, r: int)
    requires Chain(ds) && i < |ds| && ds[i] > limit && (rule.Unlimited? ==> Top(ds) <= limit)
    ensures Take(rule, At(Below(held, limit), ds[i]), ds[i], r) == 0
  {}

  function Top(ds: seq<int>): int {
    if ds == [] then 0 else ds[|ds| - 1]
  }

  /** Spends held coins towards the target; exact whenever some held coins come to the target. */
  method GetSpendCoins(ds: seq<int>, nValueTarget: int, held: Counts) returns (used: Counts)
    requires Chain(ds) && NonNegative(ds, held)
    ensures Within(ds, used, held) && IsGreedy(Floor, ds, held, nValueTarget, used)
    ensures nValueTarget >= 0 ==> Value(ds, used, |ds|) <= nValueTarget
    ensures nValueTarget >= 0 ==>
      (Value(ds, used, |ds|) == nValueTarget <==> Payable(ds, held, nValueTarget))
    ensures nValueTarget >= 0 ==> forall c: Counts :: Within(ds, c, held) && Value(ds, c, |ds|) == Value(ds, used, |ds|) ==>
      Coins(ds, used, |ds|) <= Coins(ds, c, |ds|)
  {
    hide Take, Rest, TakeAt, IsGreedy, Value, Coins, Within, Payable;
    var rest;
    used, rest := GreedyPass(Floor, ds, held, nValueTarget, Top(ds));
    LimitIsIdle(Floor, ds, held, Top(ds), nValueTarget, used);
    GreedyWithin(Floor, ds, held, nValueTarget, used);
    GreedyAccounts(Floor, ds, held, nValueTarget, used, |ds|);
    RestAtEnd(Floor, ds, held, nValueTarget);
    RestStaysAbove(Floor, ds, held, nValueTarget, 0);
    if nValueTarget >= 0 {
      GreedyIffPayable(ds, held, nValueTarget);
      forall c: Counts | Within(ds, c, held) && Value(ds, c, |ds|) == Value(ds, used, |ds|)
        ensures Coins(ds, used, |ds|) <= Coins(ds, c, |ds|)
      {
        WithinTwice(ds, c, held, held);
        GreedyIsFewest(Floor, ds, held, nValueTarget, used, c, |ds|);
      }
    }
  }

  /** The number of coins in the change for an amount. */
  function ChangeCoins(ds: seq<int>, amount: int, k: nat): int
    requires k <= |ds| && forall j :: 0 <= j < |ds| ==> ds[j] > 0
  {
    if k == 0 then 0 else ChangeCoins(ds, amount, k - 1) + TakeAt(Unlimited, ds, map[], amount, k - 1)
  }

  lemma {:induction false} ChangeCoinsAre(ds: seq<int>, amount: int, used: Counts, k: nat)
    requires Chain(ds) && k <= |ds| && IsGreedy(Unlimited, ds, map[], amount, used)
    ensures Coins(ds, used, k) == ChangeCoins(ds, amount, k)
  {
    if k > 0 { ChangeCoinsAre(ds, amount, used, k - 1); }
  }

  lemma {:induction false} ChangeIsCounted(ds: seq<int>, amount: int, k: nat)
    requires Chain(ds) && k <= |ds|
    ensures ChangeCoins(ds, amount, k) >= 0
  {
    if k > 0 {
      ChangeIsCounted(ds, amount, k - 1);
      TakeFacts(Unlimited, 0, ds[k - 1], Rest(Unlimited, ds, map[], amount, k));
    }
  }

  lemma {:induction false} NoChange(ds: seq<int>, amount: int, k: nat)
    requires Chain(ds) && k <= |ds| && amount <= 0
    ensures ChangeCoins(ds, amount, k) == 0
  {
    if k > 0 {
      NoChange(ds, amount, k - 1);
      RestStaysAbove(Unlimited, ds, map[], amount, k);
      TakeFacts(Unlimited, 0, ds[k - 1], amount);
      var n := TakeAt(Unlimited, ds, map[], amount, k - 1);
      if n > 0 { MulMonotone(1, n, ds[k - 1]); }
    }
  }

  /**
    Change for an amount: it comes to the amount rounded down to the smallest denomination, and no
    other coins of that worth are fewer.
    */
  method GetChange(ds: seq<int>, nValueTarget: int) returns (change: Counts)
    requires Chain(ds) && |ds| > 0
    ensures NonNegative(ds, change) && IsGreedy(Unlimited, ds, map[], nValueTarget, change)
    ensures Coins(ds, change, |ds|) == ChangeCoins(ds, nValueTarget, |ds|)
    ensures Value(ds, change, |ds|) == if nValueTarget < 0 then 0 else nValueTarget - nValueTarget % ds[0]
    ensures forall c: Counts :: NonNegative(ds, c) && Value(ds, c, |ds|) == Value(ds, change, |ds|) ==>
      Coins(ds, change, |ds|) <= Coins(ds, c, |ds|)
  {
    var rest;
    change, rest := GreedyPass(Unlimited, ds, map[], nValueTarget, Top(ds));
    assert Below(map[], Top(ds)) == map[];
    GreedyWithin(Unlimited, ds, map[], nValueTarget, change);
    GreedyAccounts(Unlimited, ds, map[], nValueTarget, change, |ds|);
    ChangeCoinsAre(ds, nValueTarget, change, |ds|);
    RestStaysAbove(Unlimited, ds, map[], nValueTarget, 0);
    if nValueTarget >= 0 {
      UnlimitedRest(ds, nValueTarget);
      forall c: Counts | NonNegative(ds, c) && Value(ds, c, |ds|) == Value(ds, change, |ds|)
        ensures Coins(ds, change, |ds|) <= Coins(ds, c, |ds|)
      {
        GreedyIsFewest(Unlimited, ds, map[], nValueTarget, change, c, |ds|);
      }
    } else {
      NoChange(ds, nValueTarget, |ds|);
      forall c: Counts | NonNegative(ds, c) ensures Coins(ds, c, |ds|) >= 0 {
        ValueNonNegative(ds, c, |ds|);
      }
    }
  }

  method GetNumberOfCoinsUsed(ds: seq<int>, counts: Counts) returns (n: int)
    ensures n == Coins(ds, counts, |ds|)
  {
    n := 0;
    for i := 0 to |ds|
      invariant n == Coins(ds, counts, i)
    {
      n := n + At(counts, ds[i]);
    }
  }

  // ----- minimizeChange -----

  /** One denomination: either both passes take all of it, or the plain pass ends on the nose. */
  lemma StuckStep(h: int, d: int, r: int, last: int)
    requires d > 0 && h >= 0 && r > 0
    requires last <= r - Take(Strict, h, d, r) * d
    requires Take(Strict, h, d, r) < h ==> d <= last
    ensures var n := Take(Ceiling, h, d, r);
      r - n * d == 0 || (n == h == Take(Strict, h, d, r))
  {
    TakeFacts(Strict, h, d, r);
    TakeFacts(Ceiling, h, d, r);
    var m, n := Take(Strict, h, d, r), Take(Ceiling, h, d, r);
    if m < h {
      MulAdd(m, 1, d);
      TakeIsLoop(Ceiling, h, d, r, m + 1);
    } else if n < h {
      MulMonotone(n + 1, h, d);
      MulAdd(n, 1, d);
      if h == 0 { MulMonotone(0, 0, d); }
      TakeKeepsRange(Strict, h, d, r);
    }
  }

  /**
    If paying short of the target by the strict pass leaves no coin above the remainder, then every
    coin left over equals the remainder exactly, and the plain pass meets the target on the nose.
    */
  lemma {:induction false} StuckMeansExact(ds: seq<int>, held: Counts, target: int, i: nat)
    requires Chain(ds) && NonNegative(ds, held) && target > 0 && i <= |ds|
    requires forall j :: 0 <= j < |ds| && TakeAt(Strict, ds, held, target, j) < At(held, ds[j]) ==>
      ds[j] <= Rest(Strict, ds, held, target, 0)
    ensures Rest(Ceiling, ds, held, target, i) == 0 || (
      && Rest(Ceiling, ds, held, target, i) == Rest(Strict, ds, held, target, i)
      && forall j :: i <= j < |ds| ==> TakeAt(Strict, ds, held, target, j) == At(held, ds[j]))
    decreases |ds| - i
  {
    hide Take, Rest, TakeAt;
    if i == |ds| {
      RestAtEnd(Ceiling, ds, held, target);
      RestAtEnd(Strict, ds, held, target);
    } else {
      StuckMeansExact(ds, held, target, i + 1);
      var d, h, r := ds[i], At(held, ds[i]), Rest(Ceiling, ds, held, target, i + 1);
      RestStep(Ceiling, ds, held, target, i);
      RestStep(Strict, ds, held, target, i);
      if r == 0 {
        TakeOfNothing(h, d);
      } else {
        RestStaysAbove(Strict, ds, held, target, i + 1);
        RestDescends(ds, held, target, i);
        StuckStep(h, d, r, Rest(Strict, ds, held, target, 0));
      }
    }
  }

  lemma TakeOfNothing(h: int, d: int)
    requires d > 0 && h >= 0
    ensures Take(Ceiling, h, d, 0) == 0
  {
    TakeIsLoop(Ceiling, h, d, 0, 0);
  }

  lemma {:induction false} RestDescends(ds: seq<int>, held: Counts, target: int, i: nat)
    requires Chain(ds) && NonNegative(ds, held) && i <= |ds|
    ensures Rest(Strict, ds, held, target, 0) <= Rest(Strict, ds, held, target, i)
  {
    if i > 0 {
      RestDescends(ds, held, target, i - 1);
      TakeKeepsRange(Strict, At(held, ds[i - 1]), ds[i - 1], Rest(Strict, ds, held, target, i));
    }
  }

  /** What calculateChange has settled on before it asks for an alternative. */
  ghost predicate Fallback(ds: seq<int>, target: int, held: Counts, limit: int, saved: Counts) {
    && Chain(ds) && Within(ds, saved, held)
    && (|| (exists i :: 0 <= i < |ds| && At(held, ds[i]) > 0 && ds[i] > limit && ds[i] > target)
        || ((forall i :: 0 <= i < |ds| && At(held, ds[i]) > 0 ==> ds[i] <= limit) && IsGreedy(Ceiling, ds, held, target, saved)))
  }

  /** A coin of this denomination is worth more than is missing, and one is left. */
  predicate Fits(ds: seq<int>, held: Counts, first: Counts, missing: int, i: nat) {
    i < |ds| && ds[i] > missing && At(first, ds[i]) < At(held, ds[i])
  }

  /** One more coin of the smallest denomination that fits, if any does. */
  ghost predicate ToppedUp(ds: seq<int>, held: Counts, first: Counts, missing: int, trial: Counts) {
    || ((forall i: nat :: !Fits(ds, held, first, missing, i)) && trial == first)
    || exists i: nat :: FirstFit(ds, held, first, missing, i) && trial == first[ds[i] := At(first, ds[i]) + 1]
  }

  predicate FirstFit(ds: seq<int>, held: Counts, first: Counts, missing: int, i: nat) {
    Fits(ds, held, first, missing, i) && forall j: nat :: j < i ==> !Fits(ds, held, first, missing, j)
  }

  /** As much as stays short of the target, from the highest allowed denomination down, topped up. */
  ghost predicate Trial(ds: seq<int>, limit: int, target: int, held: Counts, trial: Counts)
    requires Chain(ds)
  {
    exists first :: IsGreedy(Strict, ds, Below(held, limit), target, first)
      && ToppedUp(ds, held, first, Rest(Strict, ds, Below(held, limit), target, 0), trial)
  }

  /** What is spent without the coins that would come back. */
  ghost predicate Cancelled(ds: seq<int>, spent: Counts, back: Counts, kept: Counts) {
    forall i {:trigger At(kept, ds[i])} :: 0 <= i < |ds| ==>
      At(kept, ds[i]) == if At(spent, ds[i]) > At(back, ds[i]) then At(spent, ds[i]) - At(back, ds[i]) else 0
  }

  /** What a trial comes to without the coins that come back, in the highest coins held. */
  ghost predicate Reduced(ds: seq<int>, target: int, held: Counts, trial: Counts, back: Counts, kept: Counts, alt: Counts)
    requires Chain(ds)
  {
    && IsGreedy(Unlimited, ds, map[], Value(ds, trial, |ds|) - target, back)
    && Cancelled(ds, trial, back, kept) && IsGreedy(Floor, ds, held, Value(ds, kept, |ds|), alt)
  }

  /** The spend that minimizeChange offers instead. */
  ghost predicate Alternative(ds: seq<int>, limit: int, target: int, held: Counts, alt: Counts)
    requires Chain(ds)
  {
    exists trial, back, kept :: Reduced(ds, target, held, trial, back, kept, alt) && (target >= 0 ==> Trial(ds, limit, target, held, trial))
  }

  /** Fewer coins of change, and not too many spends. */
  predicate Better(ds: seq<int>, nMaxNumberOfSpends: int, target: int, saved: Counts, alt: Counts)
    requires forall j :: 0 <= j < |ds| ==> ds[j] > 0
  {
    && ChangeCoins(ds, Value(ds, alt, |ds|) - target, |ds|) < ChangeCoins(ds, Value(ds, saved, |ds|) - target, |ds|)
    && Coins(ds, alt, |ds|) <= nMaxNumberOfSpends
  }

  /** The alternative if it is better. */
  ghost predicate Settled(ds: seq<int>, nMaxNumberOfSpends: int, limit: int, target: int, held: Counts, saved: Counts, used: Counts)
    requires Chain(ds)
  {
    exists alt :: Alternative(ds, limit, target, held, alt) && used == if Better(ds, nMaxNumberOfSpends, target, saved, alt) then alt else saved
  }

  /** The two stages of minimizeChange that overshoot the target by at most one coin. */
  method Overshoot(ds: seq<int>, limit: int, nValueTarget: int, held: Counts, ghost saved: Counts)
    returns (used: Counts, amountUsed: int)
    requires Chain(ds) && NonNegative(ds, held)
    requires Fallback(ds, nValueTarget, held, limit, saved)
    ensures Within(ds, used, held)
    ensures Value(ds, used, |ds|) == amountUsed
    ensures amountUsed >= nValueTarget || Value(ds, held, |ds|) < nValueTarget || Value(ds, saved, |ds|) == nValueTarget
    ensures nValueTarget >= 0 ==> Trial(ds, limit, nValueTarget, held, used)
  {
    hide Take, Rest, TakeAt, Below, IsGreedy, Within, NonNegative, Fallback, Value, Trial;
    ghost var below := Below(held, limit);
    var nRemainingValue;
    used, nRemainingValue := GreedyPass(Strict, ds, held, nValueTarget, limit);
    StrictPass(ds, held, limit, nValueTarget, used);
    amountUsed := nValueTarget - nRemainingValue;
    ghost var first, r := used, nRemainingValue;
    var i := 0;
    while i < |ds|
      invariant 0 <= i <= |ds|
      invariant used == first && nRemainingValue == r && amountUsed == nValueTarget - r
      invariant forall j: nat :: j < i ==> !Fits(ds, held, first, r, j)
    {
      if ds[i] > nRemainingValue && At(used, ds[i]) < At(held, ds[i]) {
        OneMore(ds, used, held, i);
        OneMoreTried(ds, limit, nValueTarget, held, first, i);
        used := used[ds[i] := At(used, ds[i]) + 1];
        nRemainingValue := nRemainingValue - ds[i];
        amountUsed := amountUsed + ds[i];
        return;
      }
      if nRemainingValue < 0 { return; }
      i := i + 1;
    }
    NoMoreTried(ds, limit, nValueTarget, held, first);
    if r > 0 {
      StuckFallback(ds, limit, nValueTarget, held, saved, first);
    }
  }

  lemma OneMoreTried(ds: seq<int>, limit: int, target: int, held: Counts, first: Counts, i: nat)
    requires Chain(ds) && IsGreedy(Strict, ds, Below(held, limit), target, first)
    requires FirstFit(ds, held, first, Rest(Strict, ds, Below(held, limit), target, 0), i)
    ensures Trial(ds, limit, target, held, first[ds[i] := At(first, ds[i]) + 1])
  {
    hide Rest, IsGreedy;
  }

  lemma NoMoreTried(ds: seq<int>, limit: int, target: int, held: Counts, first: Counts)
    requires Chain(ds) && IsGreedy(Strict, ds, Below(held, limit), target, first)
    requires forall i: nat :: !Fits(ds, held, first, Rest(Strict, ds, Below(held, limit), target, 0), i)
    ensures Trial(ds, limit, target, held, first)
  {
    hide Rest, IsGreedy;
  }

  /** What the strict pass spends is held, and falls short of a positive target by its rest. */
  lemma StrictPass(ds: seq<int>, held: Counts, limit: int, target: int, used: Counts)
    requires Chain(ds) && NonNegative(ds, held) && IsGreedy(Strict, ds, Below(held, limit), target, used)
    ensures Within(ds, used, held)
    ensures Value(ds, used, |ds|) == target - Rest(Strict, ds, Below(held, limit), target, 0)
    ensures target <= 0 ==> Rest(Strict, ds, Below(held, limit), target, 0) == target
    ensures target > 0 ==> Rest(Strict, ds, Below(held, limit), target, 0) > 0
  {
    hide Take, Rest, TakeAt, IsGreedy;
    var below := Below(held, limit);
    GreedyWithin(Strict, ds, below, target, used);
    GreedyAccounts(Strict, ds, below, target, used, |ds|);
    RestStaysAbove(Strict, ds, below, target, 0);
    RestAtEnd(Strict, ds, below, target);
  }

  /** One more coin of a denomination that is not used up. */
  lemma OneMore(ds: seq<int>, used: Counts, held: Counts, i: nat)
    requires Chain(ds) && i < |ds| && Within(ds, used, held) && At(used, ds[i]) < At(held, ds[i])
    ensures Within(ds, used[ds[i] := At(used, ds[i]) + 1], held)
    ensures Value(ds, used[ds[i] := At(used, ds[i]) + 1], |ds|) == Value(ds, used, |ds|) + ds[i]
  {
    hide Value;
    ValueUpdate(ds, used, i, At(used, ds[i]) + 1, |ds|);
  }

  /** A held coin above both the limit and the target is still unused after the strict pass. */
  lemma OverTargetFits(ds: seq<int>, limit: int, target: int, held: Counts, first: Counts)
    requires Chain(ds) && NonNegative(ds, held) && target > 0
    requires IsGreedy(Strict, ds, Below(held, limit), target, first)
    ensures forall i {:trigger ds[i]} :: 0 <= i < |ds| && At(held, ds[i]) > 0 && ds[i] > limit && ds[i] > target ==>
      Fits(ds, held, first, Rest(Strict, ds, Below(held, limit), target, 0), i)
  {
    GreedyWithin(Strict, ds, Below(held, limit), target, first);
    RestStaysAbove(Strict, ds, Below(held, limit), target, 0);
    forall i | 0 <= i < |ds| && At(held, ds[i]) > 0 && ds[i] > limit && ds[i] > target
      ensures At(first, ds[i]) < At(held, ds[i])
    {
      assert At(first, ds[i]) <= At(Below(held, limit), ds[i]);
    }
  }

  lemma StuckFallback(ds: seq<int>, limit: int, target: int, held: Counts, saved: Counts, first: Counts)
    requires Chain(ds) && NonNegative(ds, held) && target > 0
    requires Fallback(ds, target, held, limit, saved)
    requires IsGreedy(Strict, ds, Below(held, limit), target, first)
    requires forall j: nat :: !Fits(ds, held, first, Rest(Strict, ds, Below(held, limit), target, 0), j)
    ensures Value(ds, held, |ds|) < target || Value(ds, saved, |ds|) == target
  {
    hide Take, Rest, TakeAt, IsGreedy, Value, Coins, Fits;
    PlainWasGreedy(ds, limit, target, held, saved, first);
    LimitIsIdle(Strict, ds, held, limit, target, first);
    RestStaysAbove(Strict, ds, held, target, 0);
    StuckEverywhere(ds, limit, target, held, first);
    StuckMeansExact(ds, held, target, 0);
    RestAtEnd(Ceiling, ds, held, target);
    RestAtEnd(Strict, ds, held, target);
    GreedyAccounts(Ceiling, ds, held, target, saved, |ds|);
    if Rest(Ceiling, ds, held, target, 0) != 0 {
      forall i | 0 <= i < |ds| ensures At(first, ds[i]) == At(held, ds[i]) { GreedyTakes(Strict, ds, held, target, first, i); }
      ValueAgrees(ds, held, first, |ds|);
      GreedyAccounts(Strict, ds, held, target, first, |ds|);
    }
  }

  /** If nothing fits, no held coin is above both the limit and the target, so what was settled on is the plain pass. */
  lemma PlainWasGreedy(ds: seq<int>, limit: int, target: int, held: Counts, saved: Counts, first: Counts)
    requires Chain(ds) && NonNegative(ds, held) && target > 0
    requires Fallback(ds, target, held, limit, saved)
    requires IsGreedy(Strict, ds, Below(held, limit), target, first)
    requires forall j: nat :: !Fits(ds, held, first, Rest(Strict, ds, Below(held, limit), target, 0), j)
    ensures IsGreedy(Ceiling, ds, held, target, saved) && forall i :: 0 <= i < |ds| && At(held, ds[i]) != 0 ==> ds[i] <= limit
  {
    hide Take, Rest, TakeAt, IsGreedy, Below;
    OverTargetFits(ds, limit, target, held, first);
  }

  lemma StuckEverywhere(ds: seq<int>, limit: int, target: int, held: Counts, first: Counts)
    requires Chain(ds) && IsGreedy(Strict, ds, held, target, first)
    requires Rest(Strict, ds, Below(held, limit), target, 0) == Rest(Strict, ds, held, target, 0)
    requires forall j: nat :: !Fits(ds, held, first, Rest(Strict, ds, Below(held, limit), target, 0), j)
    ensures forall j :: 0 <= j < |ds| && TakeAt(Strict, ds, held, target, j) < At(held, ds[j]) ==> ds[j] <= Rest(Strict, ds, held, target, 0)
  {
    hide Rest, TakeAt;
    forall j | 0 <= j < |ds| && TakeAt(Strict, ds, held, target, j) < At(held, ds[j]) ensures ds[j] <= Rest(Strict, ds, held, target, 0) {
      assert !Fits(ds, held, first, Rest(Strict, ds, held, target, 0), j);
    }
  }

  /** When nothing is held above the limit, the limit changes nothing. */
  lemma LimitIsIdle(rule: Rule, ds: seq<int>, held: Counts, limit: int, target: int, used: Counts)
    requires Chain(ds) && forall i :: 0 <= i < |ds| && At(held, ds[i]) != 0 ==> ds[i] <= limit
    requires IsGreedy(rule, ds, Below(held, limit), target, used)
    ensures IsGreedy(rule, ds, held, target, used)
    ensures Rest(rule, ds, Below(held, limit), target, 0) == Rest(rule, ds, held, target, 0)
  {
    if |ds| > 0 { RestOfBelow(rule, ds, held, limit, target, 0); }
    forall i | 0 <= i < |ds| ensures At(used, ds[i]) == TakeAt(rule, ds, held, target, i) {
      RestOfBelow(rule, ds, held, limit, target, i);
    }
  }

  lemma {:induction false} RestOfBelow(rule: Rule, ds: seq<int>, held: Counts, limit: int, target: int, i: nat)
    requires Chain(ds) && i < |ds| && forall i :: 0 <= i < |ds| && At(held, ds[i]) != 0 ==> ds[i] <= limit
    ensures Rest(rule, ds, Below(held, limit), target, i) == Rest(rule, ds, held, target, i)
    ensures TakeAt(rule, ds, Below(held, limit), target, i) == TakeAt(rule, ds, held, target, i)
    decreases |ds| - i
  {
    if i + 1 < |ds| { RestOfBelow(rule, ds, held, limit, target, i + 1); }
    assert At(Below(held, limit), ds[i]) == At(held, ds[i]);
  }

  /** The counts after cancelling a coin of ds[i] on both sides, and what that leaves alone. */
  lemma CancelKeeps(ds: seq<int>, used: Counts, alt: Counts, i: nat)
    requires Chain(ds) && i < |ds| && At(used, ds[i]) > 0 && At(alt, ds[i]) > 0
    requires NonNegative(ds, used) && NonNegative(ds, alt)
    ensures var used' := used[ds[i] := At(used, ds[i]) - 1]; var alt' := alt[ds[i] := At(alt, ds[i]) - 1];
      && Within(ds, used', used) && NonNegative(ds, alt')
      && Value(ds, used', |ds|) == Value(ds, used, |ds|) - ds[i]
      && Value(ds, used', |ds|) - Value(ds, alt', |ds|) == Value(ds, used, |ds|) - Value(ds, alt, |ds|)
  {
    ValueUpdate(ds, used, i, At(used, ds[i]) - 1, |ds|);
    ValueUpdate(ds, alt, i, At(alt, ds[i]) - 1, |ds|);
  }

  /** Coins that come back as change need not be spent in the first place. */
  method RemoveOverlap(ds: seq<int>, spent: Counts, change: Counts, amount: int) returns (used: Counts, amountUsed: int)
    requires Chain(ds) && NonNegative(ds, spent) && NonNegative(ds, change)
    requires amount == Value(ds, spent, |ds|)
    ensures Within(ds, used, spent) && amountUsed == Value(ds, used, |ds|)
    ensures amount - Value(ds, change, |ds|) <= amountUsed
    ensures Cancelled(ds, spent, change, used)
  {
    hide Value;
    used, amountUsed := spent, amount;
    var alt := change;
    for i := 0 to |ds|
      invariant Cancelling(ds, spent, change, used, alt, i)
      invariant Within(ds, used, spent) && NonNegative(ds, alt) && amountUsed == Value(ds, used, |ds|)
      invariant Value(ds, used, |ds|) - Value(ds, alt, |ds|) == Value(ds, spent, |ds|) - Value(ds, change, |ds|)
    {
      while At(alt, ds[i]) > 0 && At(used, ds[i]) > 0
        invariant Cancelling(ds, spent, change, used, alt, i)
        invariant Within(ds, used, spent) && NonNegative(ds, alt) && amountUsed == Value(ds, used, |ds|)
        invariant Value(ds, used, |ds|) - Value(ds, alt, |ds|) == Value(ds, spent, |ds|) - Value(ds, change, |ds|)
        decreases At(alt, ds[i])
      {
        CancelKeeps(ds, used, alt, i);
        used := used[ds[i] := At(used, ds[i]) - 1];
        alt := alt[ds[i] := At(alt, ds[i]) - 1];
        amountUsed := amountUsed - ds[i];
      }
    }
    ValueNonNegative(ds, alt, |ds|);
  }

  /** Both sides have lost the same, and below index i one side has none left. */
  ghost predicate Cancelling(ds: seq<int>, spent: Counts, change: Counts, used: Counts, alt: Counts, i: nat) {
    && (forall j :: 0 <= j < |ds| ==> At(used, ds[j]) - At(alt, ds[j]) == At(spent, ds[j]) - At(change, ds[j]))
    && (forall j :: 0 <= j < i && j < |ds| ==> At(used, ds[j]) == 0 || At(alt, ds[j]) == 0)
  }

  lemma FallbackFits(ds: seq<int>, target: int, held: Counts, limit: int, saved: Counts)
    requires Fallback(ds, target, held, limit, saved)
    ensures Within(ds, saved, held)
  {}

  /**
    Looks for a spend with fewer coins of change. Whatever it settles on, the count it returns is
    the change of that spend, and a target that was covered stays covered.
    */
  method MinimizeChange(ds: seq<int>, nMaxNumberOfSpends: int, nChangeCount: int, nextToMaxDenom: int,
                        nValueTarget: int, held: Counts, saved: Counts)
    returns (newCount: int, used: Counts)
    requires Chain(ds) && |ds| > 0 && NonNegative(ds, held)
    requires Fallback(ds, nValueTarget, held, nextToMaxDenom, saved)
    requires nChangeCount == ChangeCoins(ds, Value(ds, saved, |ds|) - nValueTarget, |ds|)
    ensures Within(ds, used, held)
    ensures newCount == ChangeCoins(ds, Value(ds, used, |ds|) - nValueTarget, |ds|)
    ensures newCount <= nChangeCount && (used == saved || newCount < nChangeCount)
    ensures Settled(ds, nMaxNumberOfSpends, nextToMaxDenom, nValueTarget, held, saved, used)
    ensures Value(ds, held, |ds|) >= nValueTarget && Value(ds, saved, |ds|) >= nValueTarget ==> Value(ds, used, |ds|) >= nValueTarget
  {
    hide Fallback, Value, Coins, ChangeCoins, IsGreedy, Trial, Cancelled, Settled;
    FallbackFits(ds, nValueTarget, held, nextToMaxDenom, saved);
    var trial, amountUsed := Overshoot(ds, nextToMaxDenom, nValueTarget, held, saved);
    var back := GetChange(ds, amountUsed - nValueTarget);
    if amountUsed >= nValueTarget { DivideSplits(amountUsed - nValueTarget, ds[0]); }
    var kept;
    kept, amountUsed := RemoveOverlap(ds, trial, back, amountUsed);
    ValueNonNegative(ds, kept, |ds|);
    used := GetSpendCoins(ds, amountUsed, held);
    assert Within(ds, kept, held);
    assert Value(ds, used, |ds|) == amountUsed;
    var nCoinCount := GetNumberOfCoinsUsed(ds, used);
    var alt := GetChange(ds, amountUsed - nValueTarget);
    var altChangeCount := GetNumberOfCoinsUsed(ds, alt);
    SettledOn(ds, nMaxNumberOfSpends, nextToMaxDenom, nValueTarget, held, saved, trial, back, kept, used);
    if altChangeCount < nChangeCount && nCoinCount <= nMaxNumberOfSpends {
      NoChange(ds, 0, |ds|);
      NonNegativeChange(ds, alt);
      newCount := altChangeCount;
    } else {
      used := saved;
      newCount := nChangeCount;
    }
  }

  lemma SettledOn(ds: seq<int>, nMaxNumberOfSpends: int, limit: int, target: int, held: Counts, saved: Counts,
                  trial: Counts, back: Counts, kept: Counts, alt: Counts)
    requires Chain(ds) && Reduced(ds, target, held, trial, back, kept, alt) && (target >= 0 ==> Trial(ds, limit, target, held, trial))
    ensures Better(ds, nMaxNumberOfSpends, target, saved, alt) ==> Settled(ds, nMaxNumberOfSpends, limit, target, held, saved, alt)
    ensures !Better(ds, nMaxNumberOfSpends, target, saved, alt) ==> Settled(ds, nMaxNumberOfSpends, limit, target, held, saved, saved)
  {
    hide Reduced, Trial, Better;
    assert Alternative(ds, limit, target, held, alt);
  }

  lemma NonNegativeChange(ds: seq<int>, change: Counts)
    requires Chain(ds) && NonNegative(ds, change)
    ensures Coins(ds, change, |ds|) >= 0
  {
    ValueNonNegative(ds, change, |ds|);
  }

  // ----- calculateChange -----

  /** The highest denomination held below a bound, or 0 (ZQ_ERROR). */
  ghost predicate HighestBelow(ds: seq<int>, bound: int, held: Counts, d: int) {
    (d != 0 ==> d in ds && d < bound && At(held, d) != 0) && forall e :: e in ds && e < bound && At(held, e) != 0 ==> e <= d
  }

  method GetNextLowerDenomHeld(ds: seq<int>, thisDenom: int, held: Counts) returns (next: int)
    requires Chain(ds)
    ensures next < thisDenom || next == 0
    ensures HighestBelow(ds, thisDenom, held, next)
  {
    next := 0;
    var i := |ds|;
    while i > 0
      invariant 0 <= i <= |ds|
      invariant next == 0
      invariant forall j :: i <= j < |ds| ==> !(ds[j] < thisDenom && At(held, ds[j]) != 0)
    {
      i := i - 1;
      if ds[i] < thisDenom && At(held, ds[i]) != 0 {
        return ds[i];
      }
    }
  }

  ghost predicate HighestHeld(ds: seq<int>, held: Counts, d: int) {
    (d != 0 ==> d in ds && At(held, d) != 0) && forall e :: e in ds && At(held, e) != 0 ==> e <= d
  }

  method GetMaxDenomHeld(ds: seq<int>, held: Counts) returns (maxDenom: int)
    requires Chain(ds)
    ensures HighestHeld(ds, held, maxDenom)
  {
    maxDenom := 0;
    var i := |ds|;
    while i > 0
      invariant 0 <= i <= |ds|
      invariant maxDenom == 0
      invariant forall j :: i <= j < |ds| ==> At(held, ds[j]) == 0
    {
      i := i - 1;
      if At(held, ds[i]) != 0 {
        return ds[i];
      }
    }
  }

  lemma OneCoinIs(ds: seq<int>, held: Counts, i: nat)
    requires Chain(ds) && NonNegative(ds, held) && i < |ds| && At(held, ds[i]) > 0
    ensures Within(ds, map[ds[i] := 1], held) && Value(ds, map[ds[i] := 1], |ds|) == ds[i]
    ensures Value(ds, held, |ds|) >= ds[i]
  {
    hide Value;
    ValueOfNone(ds, |ds|);
    ValueUpdate(ds, map[], i, 1, |ds|);
    assert map[ds[i] := 1] == map[][ds[i] := 1];
    ValueWithin(ds, map[ds[i] := 1], held, |ds|);
  }

  lemma OneCoinFallback(ds: seq<int>, target: int, held: Counts, limit: int, i: nat)
    requires Chain(ds) && NonNegative(ds, held) && i < |ds| && At(held, ds[i]) > 0
    requires target < ds[i] && limit < ds[i]
    ensures Fallback(ds, target, held, limit, map[ds[i] := 1])
  {
    hide IsGreedy;
    OneCoinIs(ds, held, i);
  }

  /** One coin of ds[i], or when change is to be minimized what is settled on with lower coins. */
  ghost predicate FromOneCoin(ds: seq<int>, nMaxNumberOfSpends: int, fMinimizeChange: bool, target: int, held: Counts, i: nat, used: Counts)
    requires Chain(ds) && i < |ds|
  {
    if !fMinimizeChange then used == map[ds[i] := 1]
    else exists limit :: HighestBelow(ds, ds[i], held, limit) && Settled(ds, nMaxNumberOfSpends, limit, target, held, map[ds[i] := 1], used)
  }

  /** The branch with one coin above the target: that coin, or something with fewer change. */
  method ChangeFromOneCoin(ds: seq<int>, nMaxNumberOfSpends: int, fMinimizeChange: bool, nValueTarget: int, held: Counts, i: nat)
    returns (nCoinsReturned: int, used: Counts)
    requires Chain(ds) && NonNegative(ds, held)
    requires i < |ds| && nValueTarget < ds[i] && At(held, ds[i]) > 0
    ensures Within(ds, used, held)
    ensures FromOneCoin(ds, nMaxNumberOfSpends, fMinimizeChange, nValueTarget, held, i, used)
    ensures Value(ds, used, |ds|) >= nValueTarget
    ensures nCoinsReturned == ChangeCoins(ds, Value(ds, used, |ds|) - nValueTarget, |ds|)
  {
    hide Fallback, Value, Coins, ChangeCoins, Within, NonNegative, Alternative, HighestBelow;
    var minDenomOverTarget := ds[i];
    used := map[minDenomOverTarget := 1];
    OneCoinIs(ds, held, i);
    var change := GetChange(ds, minDenomOverTarget - nValueTarget);
    var nChangeCount := GetNumberOfCoinsUsed(ds, change);
    if fMinimizeChange {
      var nextToMaxDenom := GetNextLowerDenomHeld(ds, minDenomOverTarget, held);
      OneCoinFallback(ds, nValueTarget, held, nextToMaxDenom, i);
      var newChangeCount, newUsed := MinimizeChange(ds, nMaxNumberOfSpends, nChangeCount, nextToMaxDenom, nValueTarget, held, used);
      if newChangeCount < nChangeCount {
        return newChangeCount, newUsed;
      }
    }
    nCoinsReturned := nChangeCount;
  }

  lemma {:induction false} ValueWithin(ds: seq<int>, m: Counts, held: Counts, k: nat)
    requires Chain(ds) && k <= |ds| && Within(ds, m, held)
    ensures Value(ds, m, k) <= Value(ds, held, k)
  {
    if k > 0 {
      ValueWithin(ds, m, held, k - 1);
      MulMonotone(At(m, ds[k - 1]), At(held, ds[k - 1]), ds[k - 1]);
    }
  }

  /** As few of the highest coins as cover the target, or what is settled on instead if it is no more coins or change counts. */
  ghost predicate FromManyCoins(ds: seq<int>, nMaxNumberOfSpends: int, fMinimizeChange: bool, target: int, held: Counts, used: Counts)
    requires Chain(ds)
  {
    exists plain, best, limit ::
      && IsGreedy(Ceiling, ds, held, target, plain) && HighestHeld(ds, held, limit)
      && Settled(ds, nMaxNumberOfSpends, limit, target, held, plain, best)
      && used == if !fMinimizeChange && Coins(ds, plain, |ds|) < Coins(ds, best, |ds|) then plain else best
  }

  /** The branch where no held coin is above the target. */
  method ChangeFromManyCoins(ds: seq<int>, nMaxNumberOfSpends: int, fMinimizeChange: bool, nValueTarget: int, held: Counts)
    returns (nCoinsReturned: int, used: Counts)
    requires Chain(ds) && |ds| > 0 && NonNegative(ds, held)
    ensures Within(ds, used, held)
    ensures FromManyCoins(ds, nMaxNumberOfSpends, fMinimizeChange, nValueTarget, held, used)
    ensures Value(ds, held, |ds|) >= nValueTarget ==> Value(ds, used, |ds|) >= nValueTarget
    ensures nCoinsReturned == ChangeCoins(ds, Value(ds, used, |ds|) - nValueTarget, |ds|)
  {
    hide Take, Rest, TakeAt, IsGreedy, Value, Coins, ChangeCoins, Within, Settled;
    var nRemainingValue;
    TopIsHighest(ds);
    RestAtEnd(Ceiling, ds, held, nValueTarget);
    used, nRemainingValue := GreedyPass(Ceiling, ds, held, nValueTarget, Top(ds));
    LimitIsIdle(Ceiling, ds, held, Top(ds), nValueTarget, used);
    GreedyWithin(Ceiling, ds, held, nValueTarget, used);
    GreedyAccounts(Ceiling, ds, held, nValueTarget, used, |ds|);
    CeilingCovers(ds, held, nValueTarget, used);
    var nCoinCount := GetNumberOfCoinsUsed(ds, used);
    var change := GetChange(ds, -nRemainingValue);
    var nMaxChangeCount := GetNumberOfCoinsUsed(ds, change);
    var maxDenomHeld := GetMaxDenomHeld(ds, held);
    AllBelowHighest(ds, held, maxDenomHeld, nValueTarget, used);
    var nChangeCount, minUsed := MinimizeChange(ds, nMaxNumberOfSpends, nMaxChangeCount, maxDenomHeld, nValueTarget, held, used);
    var nNumSpends := GetNumberOfCoinsUsed(ds, minUsed);
    if !fMinimizeChange && nCoinCount < nNumSpends {
      return nMaxChangeCount, used;
    }
    used := minUsed;
    nCoinsReturned := nChangeCount;
  }

  /** A coin above the target is held. */
  predicate Above(ds: seq<int>, target: int, held: Counts, i: nat) {
    i < |ds| && target < ds[i] && At(held, ds[i]) != 0
  }

  /** The smallest such coin. */
  predicate FirstAbove(ds: seq<int>, target: int, held: Counts, i: nat) {
    Above(ds, target, held, i) && forall j: nat :: j < i ==> !Above(ds, target, held, j)
  }

  /**
    A spend with change. On every branch it uses no more of a denomination than is held, covers the
    target whenever all the holdings would, and returns the number of coins in the change.
    */
  method CalculateChange(ds: seq<int>, nMaxNumberOfSpends: int, fMinimizeChange: bool, nValueTarget: int, held: Counts)
    returns (nCoinsReturned: int, used: Counts)
    requires Chain(ds) && |ds| > 0 && NonNegative(ds, held)
    ensures Within(ds, used, held)
    ensures Value(ds, held, |ds|) >= nValueTarget ==> Value(ds, used, |ds|) >= nValueTarget
    ensures forall i: nat :: FirstAbove(ds, nValueTarget, held, i) ==>
      FromOneCoin(ds, nMaxNumberOfSpends, fMinimizeChange, nValueTarget, held, i, used)
    ensures (forall i: nat :: !Above(ds, nValueTarget, held, i)) ==>
      FromManyCoins(ds, nMaxNumberOfSpends, fMinimizeChange, nValueTarget, held, used)
    ensures nCoinsReturned == ChangeCoins(ds, Value(ds, used, |ds|) - nValueTarget, |ds|)
  {
    hide Value, IsGreedy, FromOneCoin, FromManyCoins, ChangeCoins;
    for i := 0 to |ds|
      invariant forall j: nat :: j < i ==> !Above(ds, nValueTarget, held, j)
    {
      if nValueTarget < ds[i] && At(held, ds[i]) != 0 {
        assert Above(ds, nValueTarget, held, i);
        nCoinsReturned, used := ChangeFromOneCoin(ds, nMaxNumberOfSpends, fMinimizeChange, nValueTarget, held, i);
        return;
      }
    }
    nCoinsReturned, used := ChangeFromManyCoins(ds, nMaxNumberOfSpends, fMinimizeChange, nValueTarget, held);
  }

  lemma TopIsHighest(ds: seq<int>)
    requires Chain(ds)
    ensures forall i :: 0 <= i < |ds| ==> ds[i] <= Top(ds)
  {}

  lemma AllBelowHighest(ds: seq<int>, held: Counts, limit: int, target: int, saved: Counts)
    requires Chain(ds) && NonNegative(ds, held) && HighestHeld(ds, held, limit)
    requires IsGreedy(Ceiling, ds, held, target, saved) && Within(ds, saved, held)
    ensures Fallback(ds, target, held, limit, saved)
  {
    hide IsGreedy;
  }

  lemma CeilingCovers(ds: seq<int>, held: Counts, target: int, used: Counts)
    requires Chain(ds) && NonNegative(ds, held) && IsGreedy(Ceiling, ds, held, target, used)
    ensures Rest(Ceiling, ds, held, target, 0) <= 0 || Value(ds, held, |ds|) < target
  {
    CeilingTakesAll(ds, held, target, 0);
    if Rest(Ceiling, ds, held, target, 0) > 0 {
      ValueAgrees(ds, held, used, |ds|);
      GreedyAccounts(Ceiling, ds, held, target, used, |ds|);
    }
  }

  lemma {:induction false} CeilingTakesAll(ds: seq<int>, held: Counts, target: int, i: nat)
    requires Chain(ds) && NonNegative(ds, held) && i <= |ds|
    ensures Rest(Ceiling, ds, held, target, i) > 0 ==>
      forall j :: i <= j < |ds| ==> TakeAt(Ceiling, ds, held, target, j) == At(held, ds[j])
    decreases |ds| - i
  {
    if i < |ds| {
      CeilingTakesAll(ds, held, target, i + 1);
      TakeFacts(Ceiling, At(held, ds[i]), ds[i], Rest(Ceiling, ds, held, target, i + 1));
      MulMonotone(0, TakeAt(Ceiling, ds, held, target, i), ds[i]);
    }
  }
}
