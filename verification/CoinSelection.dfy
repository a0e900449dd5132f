/**
  Choosing mints for a spend: exact spends from a list of mints, and spends with change from the
  number of coins held. `ds` is zerocoinDenomList, in ascending order.
  */
module CoinSelection {
  import opened Arith
  import opened Denominations

  /** CZerocoinMint, as far as selection looks at it. A denomination of 0 is ZQ_ERROR. */
  datatype Mint = Mint(denom: int, isUsed: bool)

  ghost predicate ValidMints(ds: seq<int>, mints: seq<Mint>) {
    forall i :: 0 <= i < |mints| ==> mints[i].denom == 0 || mints[i].denom in ds
  }

  // ----- Selections of mints -----

  /** How many unused mints of a denomination there are. */
  function UnusedOf(mints: seq<Mint>, d: int): nat {
    if mints == [] then 0 else
      var m := mints[|mints| - 1];
      UnusedOf(mints[..|mints| - 1], d) + if !m.isUsed && m.denom == d then 1 else 0
  }

  function UnusedCounts(ds: seq<int>, mints: seq<Mint>): Counts {
    map d | d in ds :: UnusedOf(mints, d)
  }

  /** A sub-multiset of the unused mints: pick[i] says whether mint i is in it. */
  ghost predicate PicksUnused(mints: seq<Mint>, pick: seq<bool>) {
    |pick| == |mints| && forall i :: 0 <= i < |mints| ==> pick[i] ==> !mints[i].isUsed
  }

  function PickedAmount(mints: seq<Mint>, pick: seq<bool>): int
    requires |pick| == |mints|
  {
    if mints == [] then 0 else
      var n := |mints| - 1;
      PickedAmount(mints[..n], pick[..n]) + if pick[n] then mints[n].denom else 0
  }

  function PickedOf(mints: seq<Mint>, pick: seq<bool>, d: int): nat
    requires |pick| == |mints|
  {
    if mints == [] then 0 else
      var n := |mints| - 1;
      PickedOf(mints[..n], pick[..n], d) + if pick[n] && mints[n].denom == d then 1 else 0
  }

  function PickedCounts(ds: seq<int>, mints: seq<Mint>, pick: seq<bool>): Counts
    requires |pick| == |mints|
  {
    map d | d in ds :: PickedOf(mints, pick, d)
  }

  lemma {:induction false} PickedIsWithin(ds: seq<int>, mints: seq<Mint>, pick: seq<bool>)
    requires PicksUnused(mints, pick)
    ensures forall d :: PickedOf(mints, pick, d) <= UnusedOf(mints, d)
  {
    if mints != [] { PickedIsWithin(ds, mints[..|mints| - 1], pick[..|mints| - 1]); }
  }

  /** The amount of a selection depends only on how many it takes of each denomination. */
  lemma {:induction false} PickedValue(ds: seq<int>, mints: seq<Mint>, pick: seq<bool>)
    requires Chain(ds) && ValidMints(ds, mints) && |pick| == |mints|
    ensures Value(ds, PickedCounts(ds, mints, pick), |ds|) == PickedAmount(mints, pick)
  {
    hide Value, PickedCounts;
    if mints == [] {
      NonePicked(ds, pick);
    } else {
      var n := |mints| - 1;
      PickedValue(ds, mints[..n], pick[..n]);
      LastPicked(ds, mints, pick);
    }
  }

  lemma NonePicked(ds: seq<int>, pick: seq<bool>)
    requires |pick| == 0
    ensures Value(ds, PickedCounts(ds, [], pick), |ds|) == 0
  {
    hide Value;
    ValueOfNone(ds, |ds|);
    ValueAgrees(ds, PickedCounts(ds, [], pick), map[], |ds|);
  }

  lemma LastPicked(ds: seq<int>, mints: seq<Mint>, pick: seq<bool>)
    requires Chain(ds) && ValidMints(ds, mints) && |pick| == |mints| > 0
    ensures var n := |mints| - 1;
      Value(ds, PickedCounts(ds, mints, pick), |ds|) ==
      Value(ds, PickedCounts(ds, mints[..n], pick[..n]), |ds|) + if pick[n] then mints[n].denom else 0
  {
    hide Value, PickedCounts;
    var n := |mints| - 1;
    var d := mints[n].denom;
    var c, before := PickedCounts(ds, mints, pick), PickedCounts(ds, mints[..n], pick[..n]);
    LastCounted(ds, mints, pick);
    if pick[n] && d in ds {
      var j :| 0 <= j < |ds| && ds[j] == d;
      ValueUpdate(ds, before, j, At(before, d) + 1, |ds|);
      assert (At(before, d) + 1 - At(before, d)) * d == d;
    } else {
      ValueAgrees(ds, c, before, |ds|);
    }
  }

  lemma LastCounted(ds: seq<int>, mints: seq<Mint>, pick: seq<bool>)
    requires |pick| == |mints| > 0
    ensures var n := |mints| - 1;
      var c, before := PickedCounts(ds, mints, pick), PickedCounts(ds, mints[..n], pick[..n]);
      var d := mints[n].denom;
      if pick[n] && d in ds then c == before[d := At(before, d) + 1] else forall i :: 0 <= i < |ds| ==> At(c, ds[i]) == At(before, ds[i])
  {
    hide PickedOf;
    forall d ensures PickedOf(mints, pick, d) ==
      PickedOf(mints[..|mints| - 1], pick[..|mints| - 1], d) + if pick[|mints| - 1] && mints[|mints| - 1].denom == d then 1 else 0
    {
      LastCountedOf(mints, pick, d);
    }
  }

  lemma LastCountedOf(mints: seq<Mint>, pick: seq<bool>, d: int)
    requires |pick| == |mints| > 0
    ensures PickedOf(mints, pick, d) ==
      PickedOf(mints[..|mints| - 1], pick[..|mints| - 1], d) + if pick[|mints| - 1] && mints[|mints| - 1].denom == d then 1 else 0
  {}

  /** Any counts within the unused mints are the counts of some selection. */
  lemma {:induction false} PickForCounts(ds: seq<int>, mints: seq<Mint>, c: Counts) returns (pick: seq<bool>)
    requires forall d :: 0 <= At(c, d) <= UnusedOf(mints, d)
    ensures PicksUnused(mints, pick) && forall d :: PickedOf(mints, pick, d) == At(c, d)
  {
    if mints == [] {
      pick := [];
    } else {
      var n := |mints| - 1;
      var m := mints[n];
      var last := !m.isUsed && At(c, m.denom) == UnusedOf(mints, m.denom);
      var c' := if last then c[m.denom := At(c, m.denom) - 1] else c;
      forall d ensures 0 <= At(c', d) <= UnusedOf(mints[..n], d) { assert 0 <= At(c, d) <= UnusedOf(mints, d); }
      var init := PickForCounts(ds, mints[..n], c');
      pick := init + [last];
      assert pick[..n] == init;
    }
  }

  // ----- getIdealSpends -----

  /** The pass over the mints for one denomination: take unused ones while they still fit. */
  method TakeMints(listMints: seq<Mint>, coin: int, r: int) returns (n: int, nRemainingValue: int)
    requires coin > 0
    ensures n == Take(Floor, UnusedOf(listMints, coin), coin, r) && nRemainingValue == r - n * coin
  {
    n, nRemainingValue := 0, r;
    var k := 0;
    while k < |listMints|
      invariant 0 <= k <= |listMints|
      invariant 0 <= n <= UnusedOf(listMints[..k], coin)
      invariant nRemainingValue == r - n * coin
      invariant nRemainingValue >= coin ==> n == UnusedOf(listMints[..k], coin)
      invariant n > 0 ==> nRemainingValue >= 0
    {
      var mint := listMints[k];
      assert listMints[..k + 1][..k] == listMints[..k];
      k := k + 1;
      if mint.isUsed { continue; }
      if nRemainingValue >= coin && coin == mint.denom {
        MulAdd(n, 1, coin);
        n := n + 1;
        nRemainingValue := nRemainingValue - mint.denom;
      }
      if nRemainingValue < coin { break; }
    }
    assert listMints[..|listMints|] == listMints;
    UnusedGrows(listMints, k, coin);
    TakeIsLoop(Floor, UnusedOf(listMints, coin), coin, r, n);
  }

  lemma {:induction false} UnusedGrows(mints: seq<Mint>, k: nat, d: int)
    requires k <= |mints|
    ensures UnusedOf(mints[..k], d) <= UnusedOf(mints, d)
  {
    if k < |mints| {
      UnusedGrows(mints[..|mints| - 1], k, d);
      assert mints[..|mints| - 1][..k] == mints[..k];
    } else {
      assert mints[..k] == mints;
    }
  }

  ghost predicate Selectable(mints: seq<Mint>, target: int) {
    exists pick :: PicksUnused(mints, pick) && PickedAmount(mints, pick) == target
  }

  /**
    Tries to reach the target exactly; succeeds if and only if some selection of unused mints
    comes to it. On success the counts are those of such a selection.
    */
  method GetIdealSpends(ds: seq<int>, nValueTarget: int, listMints: seq<Mint>) returns (ok: bool, used: Counts)
    requires Chain(ds) && ValidMints(ds, listMints)
    ensures ok <==> Selectable(listMints, nValueTarget)
    ensures Within(ds, used, UnusedCounts(ds, listMints))
    ensures ok ==> Value(ds, used, |ds|) == nValueTarget && IsGreedy(Floor, ds, UnusedCounts(ds, listMints), nValueTarget, used)
  {
    hide Selectable, UnusedOf, Value, Take, Rest, TakeAt, GreedyFrom, IsGreedy;
    ghost var held := UnusedCounts(ds, listMints);
    var nRemainingValue := nValueTarget;
    used := map[];
    var i := |ds|;
    RestAtEnd(Floor, ds, held, nValueTarget);
    GreedyAtEnd(Floor, ds, held, nValueTarget);
    while i > 0
      invariant 0 <= i <= |ds|
      invariant nRemainingValue == Rest(Floor, ds, held, nValueTarget, i)
      invariant GreedyFrom(Floor, ds, held, nValueTarget, used, i)
    {
      i := i - 1;
      RestStep(Floor, ds, held, nValueTarget, i);
      GreedyStep(Floor, ds, held, nValueTarget, used, i);
      var n;
      n, nRemainingValue := TakeMints(listMints, ds[i], nRemainingValue);
      used := used[ds[i] := n];
    }
    GreedyAtStart(Floor, ds, held, nValueTarget, used);
    IdealSpendsAreExact(ds, listMints, nValueTarget, used);
    ok := nRemainingValue == 0;
  }

  lemma IdealSpendsAreExact(ds: seq<int>, mints: seq<Mint>, target: int, used: Counts)
    requires Chain(ds) && ValidMints(ds, mints) && IsGreedy(Floor, ds, UnusedCounts(ds, mints), target, used)
    ensures Within(ds, used, UnusedCounts(ds, mints))
    ensures Value(ds, used, |ds|) == target - Rest(Floor, ds, UnusedCounts(ds, mints), target, 0)
    ensures Rest(Floor, ds, UnusedCounts(ds, mints), target, 0) == 0 <==> Selectable(mints, target)
  {
    var held := UnusedCounts(ds, mints);
    GreedyWithin(Floor, ds, held, target, used);
    GreedyAccounts(Floor, ds, held, target, used, |ds|);
    RestStaysAbove(Floor, ds, held, target, 0);
    ExactIffSelectable(ds, mints, target);
  }

  lemma SelectableIsPayable(ds: seq<int>, mints: seq<Mint>, target: int)
    requires Chain(ds) && ValidMints(ds, mints) && Selectable(mints, target)
    ensures target >= 0 && Payable(ds, UnusedCounts(ds, mints), target)
  {
    var pick :| PicksUnused(mints, pick) && PickedAmount(mints, pick) == target;
    var c := PickedCounts(ds, mints, pick);
    PickedIsWithin(ds, mints, pick);
    PickedValue(ds, mints, pick);
    ValueNonNegative(ds, c, |ds|);
    assert Within(ds, c, UnusedCounts(ds, mints));
  }

  lemma PayableIsSelectable(ds: seq<int>, mints: seq<Mint>, target: int)
    requires Chain(ds) && ValidMints(ds, mints) && Payable(ds, UnusedCounts(ds, mints), target)
    ensures Selectable(mints, target)
  {
    var c: Counts :| Within(ds, c, UnusedCounts(ds, mints)) && Value(ds, c, |ds|) == target;
    var c' := map d | d in ds :: At(c, d);
    forall d ensures 0 <= At(c', d) <= UnusedOf(mints, d) {
      if d in ds {
        var j :| 0 <= j < |ds| && ds[j] == d;
        assert At(c, ds[j]) <= At(UnusedCounts(ds, mints), ds[j]);
      }
    }
    var pick := PickForCounts(ds, mints, c');
    PickedValue(ds, mints, pick);
    ValueAgrees(ds, c, PickedCounts(ds, mints, pick), |ds|);
  }

  lemma ExactIffSelectable(ds: seq<int>, mints: seq<Mint>, target: int)
    requires Chain(ds) && ValidMints(ds, mints)
    ensures target >= 0 && Rest(Floor, ds, UnusedCounts(ds, mints), target, 0) == 0 <==> Selectable(mints, target)
  {
    if target >= 0 { GreedyIffPayable(ds, UnusedCounts(ds, mints), target); }
    if Selectable(mints, target) { SelectableIsPayable(ds, mints, target); }
    if Payable(ds, UnusedCounts(ds, mints), target) { PayableIsSelectable(ds, mints, target); }
  }

  // ----- getSpends -----

  /** How many of the chosen mints have a denomination. */
  function ChosenOf(mints: seq<Mint>, chosen: seq<nat>, d: int): nat {
    if chosen == [] then 0 else
      var k := chosen[|chosen| - 1];
      ChosenOf(mints, chosen[..|chosen| - 1], d) + if k < |mints| && mints[k].denom == d then 1 else 0
  }

  /** The value of the chosen mints. */
  function ChosenAmount(mints: seq<Mint>, chosen: seq<nat>): int {
    if chosen == [] then 0 else
      var k := chosen[|chosen| - 1];
      ChosenAmount(mints, chosen[..|chosen| - 1]) + if k < |mints| then mints[k].denom else 0
  }

  lemma {:induction false} ChosenAmountAppend(mints: seq<Mint>, a: seq<nat>, b: seq<nat>)
    ensures ChosenAmount(mints, a + b) == ChosenAmount(mints, a) + ChosenAmount(mints, b)
  {
    if b == [] {
      assert a + b == a;
    } else {
      ChosenAmountAppend(mints, a, b[..|b| - 1]);
      assert (a + b)[..|a + b| - 1] == a + b[..|b| - 1];
    }
  }

  lemma {:induction false} ChosenAmountOfSame(mints: seq<Mint>, chosen: seq<nat>, d: int)
    requires forall i :: 0 <= i < |chosen| ==> chosen[i] < |mints| && mints[chosen[i]].denom == d
    ensures ChosenAmount(mints, chosen) == |chosen| * d
  {
    if chosen != [] {
      ChosenAmountOfSame(mints, chosen[..|chosen| - 1], d);
      MulAdd(|chosen| - 1, 1, d);
    }
  }

  /** Distinct, unused mints. */
  ghost predicate IsSpend(mints: seq<Mint>, chosen: seq<nat>) {
    && (forall i :: 0 <= i < |chosen| ==> chosen[i] < |mints| && !mints[chosen[i]].isUsed)
    && (forall i, j :: 0 <= i < j < |chosen| ==> chosen[i] != chosen[j])
  }

  lemma {:induction false} ChosenAppend(mints: seq<Mint>, a: seq<nat>, b: seq<nat>, d: int)
    ensures ChosenOf(mints, a + b, d) == ChosenOf(mints, a, d) + ChosenOf(mints, b, d)
  {
    if b == [] {
      assert a + b == a;
    } else {
      ChosenAppend(mints, a, b[..|b| - 1], d);
      assert (a + b)[..|a + b| - 1] == a + b[..|b| - 1];
    }
  }

  lemma {:induction false} ChosenOfOther(mints: seq<Mint>, chosen: seq<nat>, d: int)
    requires forall i :: 0 <= i < |chosen| ==> chosen[i] < |mints| && mints[chosen[i]].denom != d
    ensures ChosenOf(mints, chosen, d) == 0
  {
    if chosen != [] { ChosenOfOther(mints, chosen[..|chosen| - 1], d); }
  }

  /**
    The do-while of one denomination. Its second pass would pick the same mints again; with counts
    the unused mints can serve there is no second pass.
    */
  method SpendCoin(listMints: seq<Mint>, coin: int, count: int) returns (picked: seq<nat>)
    requires 0 <= count <= UnusedOf(listMints, coin)
    ensures IsSpend(listMints, picked) && |picked| == count
    ensures forall i :: 0 <= i < |picked| ==> listMints[picked[i]].denom == coin
  {
    picked := [];
    var left := count;
    var again := true;
    while again
      invariant again ==> left == count && picked == []
      invariant !again ==> left == 0
      invariant IsSpend(listMints, picked) && |picked| == count - left
      invariant forall i :: 0 <= i < |picked| ==> listMints[picked[i]].denom == coin
      decreases again
    {
      var k := 0;
      while k < |listMints|
        invariant 0 <= k <= |listMints|
        invariant 0 <= left <= count
        invariant left > 0 ==> count - left == UnusedOf(listMints[..k], coin)
        invariant IsSpend(listMints, picked) && |picked| == count - left
        invariant forall i :: 0 <= i < |picked| ==> picked[i] < k && listMints[picked[i]].denom == coin
      {
        assert listMints[..k + 1][..k] == listMints[..k];
        var mint := listMints[k];
        if !mint.isUsed && coin == mint.denom && left != 0 {
          picked := picked + [k];
          left := left - 1;
        }
        k := k + 1;
      }
      assert listMints[..|listMints|] == listMints;
      again := left != 0;
    }
  }

  /** What is chosen so far: nothing of the denominations below index i, the full counts above. */
  ghost predicate SpentFrom(ds: seq<int>, mints: seq<Mint>, counts: Counts, chosen: seq<nat>, i: nat) {
    && IsSpend(mints, chosen)
    && (forall j :: i <= j < |ds| ==> ChosenOf(mints, chosen, ds[j]) == At(counts, ds[j]))
    && (forall k :: 0 <= k < |chosen| ==> forall j :: 0 <= j < i && j < |ds| ==> mints[chosen[k]].denom != ds[j])
  }

  lemma SpendMore(ds: seq<int>, mints: seq<Mint>, counts: Counts, chosen: seq<nat>, i: nat, picked: seq<nat>)
    requires Chain(ds) && i < |ds| && SpentFrom(ds, mints, counts, chosen, i + 1)
    requires IsSpend(mints, picked) && |picked| == At(counts, ds[i])
    requires forall k :: 0 <= k < |picked| ==> mints[picked[k]].denom == ds[i]
    ensures SpentFrom(ds, mints, counts, chosen + picked, i)
  {
    forall j | i <= j < |ds| ensures ChosenOf(mints, chosen + picked, ds[j]) == At(counts, ds[j]) {
      ChosenAppend(mints, chosen, picked, ds[j]);
      if j == i {
        ChosenOfOther(mints, chosen, ds[i]);
        ChosenOfSame(mints, picked, ds[i]);
      } else {
        ChosenOfOther(mints, picked, ds[j]);
      }
    }
  }

  lemma {:induction false} ChosenOfSame(mints: seq<Mint>, chosen: seq<nat>, d: int)
    requires forall i :: 0 <= i < |chosen| ==> chosen[i] < |mints| && mints[chosen[i]].denom == d
    ensures ChosenOf(mints, chosen, d) == |chosen|
  {
    if chosen != [] { ChosenOfSame(mints, chosen[..|chosen| - 1], d); }
  }

  lemma NothingSpent(ds: seq<int>, mints: seq<Mint>, counts: Counts)
    ensures SpentFrom(ds, mints, counts, [], |ds|) && ChosenAmount(mints, []) == 0
  {}

  // ----- No exact spend takes fewer mints -----

  /** At most n unused mints meet the target exactly. */
  ghost predicate SelectableWithin(mints: seq<Mint>, target: int, n: int) {
    exists chosen :: IsSpend(mints, chosen) && ChosenAmount(mints, chosen) == target && |chosen| <= n
  }

  function ChosenCounts(ds: seq<int>, mints: seq<Mint>, chosen: seq<nat>): Counts {
    map d | d in ds :: ChosenOf(mints, chosen, d)
  }

  /** The chosen mints come to what their counts say, and are at least as many: one without a denomination is worth nothing. */
  lemma {:induction false} ChosenValue(ds: seq<int>, mints: seq<Mint>, chosen: seq<nat>)
    requires Chain(ds) && ValidMints(ds, mints) && forall i :: 0 <= i < |chosen| ==> chosen[i] < |mints|
    ensures Value(ds, ChosenCounts(ds, mints, chosen), |ds|) == ChosenAmount(mints, chosen)
    ensures Coins(ds, ChosenCounts(ds, mints, chosen), |ds|) <= |chosen|
  {
    hide Value, Coins, ChosenCounts;
    if chosen == [] {
      ValueOfNone(ds, |ds|);
      NothingChosen(ds, mints);
      ValueAgrees(ds, ChosenCounts(ds, mints, []), map[], |ds|);
    } else {
      ChosenValue(ds, mints, chosen[..|chosen| - 1]);
      LastChosen(ds, mints, chosen);
    }
  }

  lemma NothingChosen(ds: seq<int>, mints: seq<Mint>)
    ensures forall i :: 0 <= i < |ds| ==> At(ChosenCounts(ds, mints, []), ds[i]) == 0
  {}

  lemma LastChosen(ds: seq<int>, mints: seq<Mint>, chosen: seq<nat>)
    requires Chain(ds) && ValidMints(ds, mints) && chosen != [] && forall i :: 0 <= i < |chosen| ==> chosen[i] < |mints|
    ensures var before := chosen[..|chosen| - 1]; var d := mints[chosen[|chosen| - 1]].denom;
      && Value(ds, ChosenCounts(ds, mints, chosen), |ds|) == Value(ds, ChosenCounts(ds, mints, before), |ds|) + d
      && Coins(ds, ChosenCounts(ds, mints, chosen), |ds|) <= Coins(ds, ChosenCounts(ds, mints, before), |ds|) + 1
  {
    hide Value, Coins, ChosenOf;
    var d := mints[chosen[|chosen| - 1]].denom;
    var c, before := ChosenCounts(ds, mints, chosen), ChosenCounts(ds, mints, chosen[..|chosen| - 1]);
    forall e ensures ChosenOf(mints, chosen, e) == ChosenOf(mints, chosen[..|chosen| - 1], e) + if d == e then 1 else 0 {
      LastChosenOf(mints, chosen, e);
    }
    if d in ds {
      var j :| 0 <= j < |ds| && ds[j] == d;
      ValueUpdate(ds, before, j, At(before, d) + 1, |ds|);
      assert c == before[ds[j] := At(before, d) + 1];
      assert (At(before, d) + 1 - At(before, d)) * d == d;
    } else {
      ValueAgrees(ds, c, before, |ds|);
    }
  }

  lemma LastChosenOf(mints: seq<Mint>, chosen: seq<nat>, d: int)
    requires chosen != [] && chosen[|chosen| - 1] < |mints|
    ensures ChosenOf(mints, chosen, d) ==
      ChosenOf(mints, chosen[..|chosen| - 1], d) + if mints[chosen[|chosen| - 1]].denom == d then 1 else 0
  {}

  /** Distinct unused mints of a denomination are no more than there are. */
  lemma {:induction false} ChosenAreUnused(mints: seq<Mint>, chosen: seq<nat>, d: int)
    requires IsSpend(mints, chosen)
    ensures ChosenOf(mints, chosen, d) <= UnusedOf(mints, d)
  {
    var all := set k | 0 <= k < |mints| && !mints[k].isUsed && mints[k].denom == d;
    var some := set k | k in chosen && mints[k].denom == d;
    UnusedAre(mints, d, all);
    ChosenAre(mints, chosen, d, some);
    SubsetCounts(some, all);
  }

  lemma {:induction false} UnusedAre(mints: seq<Mint>, d: int, all: set<nat>)
    requires all == set k | 0 <= k < |mints| && !mints[k].isUsed && mints[k].denom == d
    ensures UnusedOf(mints, d) == |all|
  {
    if mints != [] {
      var n := |mints| - 1;
      var init := mints[..n];
      var before := set k | 0 <= k < |init| && !init[k].isUsed && init[k].denom == d;
      UnusedAre(init, d, before);
      assert all == before + if !mints[n].isUsed && mints[n].denom == d then {n} else {};
    } else {
      assert all == {};
    }
  }

  lemma {:induction false} ChosenAre(mints: seq<Mint>, chosen: seq<nat>, d: int, some: set<nat>)
    requires IsSpend(mints, chosen) && some == set k | k in chosen && mints[k].denom == d
    ensures ChosenOf(mints, chosen, d) == |some|
  {
    hide ChosenOf;
    if chosen == [] {
      NoneChosenOf(mints, d);
      assert some == {};
    } else {
      var n := |chosen| - 1;
      var before := set k | k in chosen[..n] && mints[k].denom == d;
      ChosenAre(mints, chosen[..n], d, before);
      LastChosenOf(mints, chosen, d);
      OneMoreChosen(mints, chosen, d, before, some);
    }
  }

  lemma NoneChosenOf(mints: seq<Mint>, d: int)
    ensures ChosenOf(mints, [], d) == 0
  {}

  lemma OneMoreChosen(mints: seq<Mint>, chosen: seq<nat>, d: int, before: set<nat>, some: set<nat>)
    requires IsSpend(mints, chosen) && chosen != [] && some == set k | k in chosen && mints[k].denom == d
    requires before == set k | k in chosen[..|chosen| - 1] && mints[k].denom == d
    ensures |some| == |before| + if mints[chosen[|chosen| - 1]].denom == d then 1 else 0
  {
    var last, init := chosen[|chosen| - 1], chosen[..|chosen| - 1];
    assert chosen == init + [last] && last !in init;
    assert some == before + if mints[last].denom == d then {last} else {};
  }

  lemma {:induction false} SubsetCounts(some: set<nat>, all: set<nat>)
    requires some <= all
    ensures |some| <= |all|
  {
    if k :| k in some {
      SubsetCounts(some - {k}, all - {k});
    } else {
      assert some == {};
    }
  }

  /** The greedy counts are those of an exact spend with the fewest mints. */
  lemma FewestMints(ds: seq<int>, mints: seq<Mint>, target: int, used: Counts, chosen: seq<nat>)
    requires Chain(ds) && ValidMints(ds, mints) && IsGreedy(Floor, ds, UnusedCounts(ds, mints), target, used)
    requires Value(ds, used, |ds|) == target && IsSpend(mints, chosen) && ChosenAmount(mints, chosen) == target
    ensures Coins(ds, used, |ds|) <= |chosen|
  {
    hide Value, Coins, IsGreedy, ChosenOf, ChosenAmount, UnusedOf;
    var held, c := UnusedCounts(ds, mints), ChosenCounts(ds, mints, chosen);
    ChosenValue(ds, mints, chosen);
    forall i | 0 <= i < |ds| ensures 0 <= At(c, ds[i]) <= At(held, ds[i]) { ChosenAreUnused(mints, chosen, ds[i]); }
    ValueNonNegative(ds, c, |ds|);
    GreedyIsFewest(Floor, ds, held, target, used, c, |ds|);
  }

  /**
    The mints to spend, by their place in the list. With counts that the unused mints can serve it
    terminates, repeats no mint, and spends exactly what the counts say.
    */
  method GetSpends(ds: seq<int>, listMints: seq<Mint>, denomsUsed: Counts)
    returns (vSelectedMints: seq<nat>, nCoinsSpentValue: int)
    requires Chain(ds) && Within(ds, denomsUsed, UnusedCounts(ds, listMints))
    ensures IsSpend(listMints, vSelectedMints)
    ensures forall j :: 0 <= j < |ds| ==> ChosenOf(listMints, vSelectedMints, ds[j]) == At(denomsUsed, ds[j])
    ensures nCoinsSpentValue == Value(ds, denomsUsed, |ds|) == ChosenAmount(listMints, vSelectedMints)
    ensures |vSelectedMints| == Coins(ds, denomsUsed, |ds|)
  {
    hide ChosenOf, ChosenAmount, UnusedOf, IsSpend;
    vSelectedMints := [];
    nCoinsSpentValue := 0;
    NothingSpent(ds, listMints, denomsUsed);
    var i := |ds|;
    while i > 0
      invariant 0 <= i <= |ds|
      invariant SpentFrom(ds, listMints, denomsUsed, vSelectedMints, i)
      invariant nCoinsSpentValue == Value(ds, denomsUsed, |ds|) - Value(ds, denomsUsed, i) == ChosenAmount(listMints, vSelectedMints)
      invariant |vSelectedMints| == Coins(ds, denomsUsed, |ds|) - Coins(ds, denomsUsed, i)
    {
      i := i - 1;
      assert At(denomsUsed, ds[i]) <= At(UnusedCounts(ds, listMints), ds[i]);
      var picked := SpendCoin(listMints, ds[i], At(denomsUsed, ds[i]));
      SpendMore(ds, listMints, denomsUsed, vSelectedMints, i, picked);
      ChosenAmountAppend(listMints, vSelectedMints, picked);
      ChosenAmountOfSame(listMints, picked, ds[i]);
      vSelectedMints := vSelectedMints + picked;
      nCoinsSpentValue := nCoinsSpentValue + |picked| * ds[i];
    }
  }
}

/** SelectMintsFromList: exact spends when they are few enough, spends with change otherwise. */
module MintSelection {
  import opened Denominations
  import opened CoinSelection
  import ChangeSelection

  /** The sizes are compared unsigned, so a negative maximum is no limit. */
  predicate FewEnough(n: nat, nMaxNumberOfSpends: int) {
    nMaxNumberOfSpends < 0 || n <= nMaxNumberOfSpends
  }

  /** Some exact spend is short enough. */
  ghost predicate ExactlyWithin(mints: seq<Mint>, target: int, nMaxNumberOfSpends: int) {
    exists chosen :: IsSpend(mints, chosen) && ChosenAmount(mints, chosen) == target && FewEnough(|chosen|, nMaxNumberOfSpends)
  }

  /**
    If some exact spend is short enough, one of the fewest mints is returned, with no change. Otherwise a spend
    with change is, or nothing; and if only the number of mints was in the way, how many an exact spend needs.
    */
  method SelectMintsFromList(ds: seq<int>, nValueTarget: int, nMaxNumberOfSpends: int, fMinimizeChange: bool, listMints: seq<Mint>)
    returns (vSelectedMints: seq<nat>, nSelectedValue: int, nCoinsReturned: int, nNeededSpends: int)
    requires Chain(ds) && |ds| > 0 && ValidMints(ds, listMints)
    ensures IsSpend(listMints, vSelectedMints)
    ensures vSelectedMints != [] ==> nSelectedValue == ChosenAmount(listMints, vSelectedMints)
    ensures vSelectedMints != [] && Value(ds, UnusedCounts(ds, listMints), |ds|) >= nValueTarget ==> nSelectedValue >= nValueTarget
    ensures vSelectedMints != [] ==> nCoinsReturned == ChangeSelection.ChangeCoins(ds, nSelectedValue - nValueTarget, |ds|)
    ensures ExactlyWithin(listMints, nValueTarget, nMaxNumberOfSpends) ==>
      && nNeededSpends == 0 && nCoinsReturned == 0 && FewEnough(|vSelectedMints|, nMaxNumberOfSpends)
      && nSelectedValue == nValueTarget == ChosenAmount(listMints, vSelectedMints)
      && !SelectableWithin(listMints, nValueTarget, |vSelectedMints| - 1)
    ensures !ExactlyWithin(listMints, nValueTarget, nMaxNumberOfSpends) && nValueTarget > 0 ==> (vSelectedMints == [] <==> nCoinsReturned == 0)
    ensures nNeededSpends > 0 <==> Selectable(listMints, nValueTarget) && !ExactlyWithin(listMints, nValueTarget, nMaxNumberOfSpends)
    ensures nNeededSpends > 0 ==>
      SelectableWithin(listMints, nValueTarget, nNeededSpends) && !SelectableWithin(listMints, nValueTarget, nNeededSpends - 1)
  {
    hide Selectable, IsSpend, ChosenAmount, ChosenOf, Value, Coins, IsGreedy, Within, UnusedOf, ChangeSelection.ChangeCoins;
    nNeededSpends := 0;
    var exact, used := GetIdealSpends(ds, nValueTarget, listMints);
    OnlySelectable(ds, listMints, nValueTarget);
    if exact {
      nCoinsReturned := 0;
      vSelectedMints, nSelectedValue := GetSpends(ds, listMints, used);
      NoFewer(ds, listMints, nValueTarget, used);
      if FewEnough(|vSelectedMints|, nMaxNumberOfSpends) {
        ChangeSelection.NoChange(ds, 0, |ds|);
        return;
      }
      nNeededSpends := |vSelectedMints|;
    }
    var held := UnusedCounts(ds, listMints);
    UnusedAreHeld(ds, listMints);
    nCoinsReturned, used := ChangeSelection.CalculateChange(ds, nMaxNumberOfSpends, fMinimizeChange, nValueTarget, held);
    NoneChosen(listMints);
    if nCoinsReturned == 0 {
      vSelectedMints, nSelectedValue := [], if exact then nSelectedValue else 0;
    } else {
      vSelectedMints, nSelectedValue := GetSpends(ds, listMints, used);
      if nValueTarget > 0 { ChangeSelection.NoChange(ds, -nValueTarget, |ds|); }
    }
  }

  lemma NoneChosen(mints: seq<Mint>)
    ensures IsSpend(mints, []) && ChosenAmount(mints, []) == 0
  {}

  lemma UnusedAreHeld(ds: seq<int>, mints: seq<Mint>)
    ensures NonNegative(ds, UnusedCounts(ds, mints))
  {}

  lemma NoFewer(ds: seq<int>, mints: seq<Mint>, target: int, used: Counts)
    requires Chain(ds) && ValidMints(ds, mints) && IsGreedy(Floor, ds, UnusedCounts(ds, mints), target, used)
    requires Value(ds, used, |ds|) == target
    ensures forall chosen :: IsSpend(mints, chosen) && ChosenAmount(mints, chosen) == target ==> Coins(ds, used, |ds|) <= |chosen|
  {
    hide IsSpend, ChosenAmount, Value, Coins, IsGreedy;
    forall chosen | IsSpend(mints, chosen) && ChosenAmount(mints, chosen) == target ensures Coins(ds, used, |ds|) <= |chosen| {
      FewestMints(ds, mints, target, used, chosen);
    }
  }

  /** An exact spend is a selection of unused mints. */
  lemma OnlySelectable(ds: seq<int>, mints: seq<Mint>, target: int)
    requires Chain(ds) && ValidMints(ds, mints)
    ensures forall chosen :: IsSpend(mints, chosen) && ChosenAmount(mints, chosen) == target ==> Selectable(mints, target)
  {
    forall chosen | IsSpend(mints, chosen) && ChosenAmount(mints, chosen) == target ensures Selectable(mints, target) {
      SpendIsSelectable(ds, mints, target, chosen);
    }
  }

  lemma SpendIsSelectable(ds: seq<int>, mints: seq<Mint>, target: int, chosen: seq<nat>)
    requires Chain(ds) && ValidMints(ds, mints) && IsSpend(mints, chosen) && ChosenAmount(mints, chosen) == target
    ensures Selectable(mints, target)
  {
    hide Value, ChosenOf, ChosenAmount, UnusedOf, Selectable;
    var c := ChosenCounts(ds, mints, chosen);
    ChosenValue(ds, mints, chosen);
    forall i | 0 <= i < |ds| ensures 0 <= At(c, ds[i]) <= At(UnusedCounts(ds, mints), ds[i]) { ChosenAreUnused(mints, chosen, ds[i]); }
    assert Payable(ds, UnusedCounts(ds, mints), target);
    PayableIsSelectable(ds, mints, target);
  }
}
