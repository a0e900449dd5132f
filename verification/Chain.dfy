/** chain.cpp and chain.h: the tree of block index entries, and the array that indexes its active branch. */
module Chain {
  import opened Arith
  import opened Powers

  // ----- The tree -----

  /** n & (n - 1) */
  function InvertLowestOne(n: nat): (r: nat)
    ensures r <= n && (n > 0 ==> r < n)
  {
    if n == 0 then 0 else if n % 2 == 1 then n - 1 else 2 * InvertLowestOne(n / 2)
  }

  function GetSkipHeight(height: nat): (r: nat)
    ensures height > 0 ==> r < height
  {
    if height < 2 then 0
    else if height % 2 == 1 then InvertLowestOne(InvertLowestOne(height - 1)) + 1
    else InvertLowestOne(height)
  }

  /** The lowest bit that is set goes. */
  lemma {:induction false} LowestOneGoes(a: nat, k: nat)
    ensures InvertLowestOne((2 * a + 1) * Pow(2, k)) == 2 * a * Pow(2, k)
  {
    hide Pow, InvertLowestOne;
    if k == 0 {
      PowZero(2);
      LastBitGoes(a);
    } else {
      PowNext(2, k - 1);
      PowPositive(2, k - 1);
      LowestOneGoes(a, k - 1);
      TwiceAsMuch(2 * a + 1, 2 * a, Pow(2, k - 1));
    }
  }

  lemma LastBitGoes(a: nat)
    ensures InvertLowestOne(2 * a + 1) == 2 * a
  {}

  lemma TwiceAsMuch(c: nat, d: nat, p: nat)
    requires c > 0 && p > 0 && c * p >= 0 && InvertLowestOne(c * p) == d * p
    ensures c * (2 * p) >= 0 && InvertLowestOne(c * (2 * p)) == d * (2 * p)
  {
    hide InvertLowestOne;
    assert c * (2 * p) == 2 * (c * p) && d * (2 * p) == 2 * (d * p);
    MulMonotone(1, c, p);
    DoubledLoses(c * p);
  }

  lemma DoubledLoses(n: nat)
    requires n > 0
    ensures InvertLowestOne(2 * n) == 2 * InvertLowestOne(n)
  {
    DivideUnique(2 * n, 2, n);
  }

  /** From an even height skip pointers lead to the one without its lowest bit. */
  lemma EvenSkip(a: nat, k: nat)
    requires k > 0
    ensures GetSkipHeight((2 * a + 1) * Pow(2, k)) == 2 * a * Pow(2, k)
  {
    hide Pow, InvertLowestOne;
    LowestOneGoes(a, k);
    EvenMultiple(2 * a + 1, k);
  }

  /** From an odd height, to the odd one without the two lowest bits above the last; from one without a second, to 1. */
  lemma OddSkip(a: nat, k: nat, j: nat)
    requires 0 < j < k
    ensures GetSkipHeight((2 * a + 1) * Pow(2, k) + Pow(2, j) + 1) == 2 * a * Pow(2, k) + 1
    ensures GetSkipHeight(Pow(2, j) + 1) == 1
  {
    hide Pow, InvertLowestOne;
    var b := (2 * a + 1) * Pow(2, k - j - 1);
    BitBelow(a, k, j);
    LowestOneGoes(a, k);
    LowestOneGoes(b, j);
    LowestOneGoes(0, j);
    EvenMultiple(2 * b + 1, j);
    EvenMultiple(1, j);
    OddSkipIs((2 * a + 1) * Pow(2, k) + Pow(2, j), (2 * a + 1) * Pow(2, k), 2 * a * Pow(2, k));
    ZeroStays();
    OddSkipIs(Pow(2, j), 0, 0);
  }

  lemma OddSkipIs(n: nat, m: nat, r: nat)
    requires n >= 2 && n % 2 == 0 && InvertLowestOne(n) == m && InvertLowestOne(m) == r
    ensures GetSkipHeight(n + 1) == r + 1
  {
    hide InvertLowestOne;
  }

  /** A lower bit below a number that ends in bit k. */
  lemma BitBelow(a: nat, k: nat, j: nat)
    requires j < k
    ensures var b := (2 * a + 1) * Pow(2, k - j - 1);
      2 * b * Pow(2, j) == (2 * a + 1) * Pow(2, k) && (2 * b + 1) * Pow(2, j) == (2 * a + 1) * Pow(2, k) + Pow(2, j)
  {
    hide Pow;
    var c, p, q := 2 * a + 1, Pow(2, k - j - 1), Pow(2, j);
    PowAdd(2, k - j - 1, j);
    PowNext(2, k - 1);
    MulAssociate(c, p, q);
    MulAssociate(2, c * p, q);
    MulAssociate(c, 2, p * q);
    assert c * (2 * (p * q)) == 2 * (c * (p * q));
    MulAdd(2 * (c * p), 1, q);
  }

  lemma ZeroStays()
    ensures InvertLowestOne(0) == 0
  {}

  lemma EvenMultiple(c: nat, k: nat)
    requires k > 0 && c > 0
    ensures c * Pow(2, k) >= 2 && c * Pow(2, k) % 2 == 0
  {
    hide Pow;
    PowNext(2, k - 1);
    PowPositive(2, k - 1);
    var p := Pow(2, k - 1);
    assert c * Pow(2, k) == 2 * (c * p);
    MulMonotone(1, c, p);
    DivideUnique(c * Pow(2, k), 2, c * p);
  }

  /** The fields that link an entry do not change once it is in the tree. */
  class CBlockIndex {
    const pprev: CBlockIndex?
    const pskip: CBlockIndex?
    const nHeight: nat
    const nTime: nat

    constructor (pprev: CBlockIndex?, pskip: CBlockIndex?, nHeight: nat, nTime: nat)
      ensures this.pprev == pprev && this.pskip == pskip && this.nHeight == nHeight && this.nTime == nTime
    {
      this.pprev, this.pskip, this.nHeight, this.nTime := pprev, pskip, nHeight, nTime;
    }

    /** Heights count the entries below, down to the one without predecessor. */
    ghost predicate Linked()
      decreases nHeight
    {
      if nHeight == 0 then pprev == null else pprev != null && pprev.nHeight == nHeight - 1 && pprev.Linked()
    }

    function Ancestor(h: nat): (a: CBlockIndex)
      requires Linked() && h <= nHeight
      ensures a.Linked() && a.nHeight == h
      decreases nHeight
    {
      if h == nHeight then this else pprev.Ancestor(h)
    }

    /** pskip is what BuildSkip makes it, all the way down. */
    ghost predicate Skipping()
      decreases nHeight
    {
      Linked() && (nHeight > 0 ==> pskip == pprev.Ancestor(GetSkipHeight(nHeight)) && pprev.Skipping())
    }

    lemma {:induction false} AncestorOfAncestor(h: nat, k: nat)
      requires Linked() && h <= k <= nHeight
      ensures Ancestor(k).Ancestor(h) == Ancestor(h)
      decreases nHeight
    {
      if k < nHeight { pprev.AncestorOfAncestor(h, k); }
    }

    lemma {:induction false} AncestorSkips(h: nat)
      requires Skipping() && h <= nHeight
      ensures Ancestor(h).Skipping()
      decreases nHeight
    {
      if h < nHeight { pprev.AncestorSkips(h); }
    }

    /** The walk by skip pointers ends at the ancestor with that height; outside the heights there is none. */
    method GetAncestor(height: int) returns (r: CBlockIndex?)
      requires Skipping()
      ensures height < 0 || height > nHeight ==> r == null
      ensures 0 <= height <= nHeight ==> r == Ancestor(height)
    {
      if height > nHeight || height < 0 {
        return null;
      }
      var pindexWalk: CBlockIndex := this;
      var heightWalk := nHeight;
      while heightWalk > height
        invariant height <= heightWalk <= nHeight && pindexWalk == Ancestor(heightWalk)
      {
        AncestorSkips(heightWalk);
        var heightSkip := GetSkipHeight(heightWalk);
        var heightSkipPrev := GetSkipHeight(heightWalk - 1);
        if heightSkip == height || (heightSkip > height && !(heightSkipPrev < heightSkip - 2 && heightSkipPrev >= height)) {
          AncestorOfAncestor(heightSkip, heightWalk);
          pindexWalk := pindexWalk.pskip;
          heightWalk := heightSkip;
        } else {
          AncestorOfAncestor(heightWalk - 1, heightWalk);
          pindexWalk := pindexWalk.pprev;
          heightWalk := heightWalk - 1;
        }
      }
      return pindexWalk;
    }
  }

  /** A new entry on top of another, its skip pointer built as BuildSkip does. */
  method Append(pprev: CBlockIndex?, nTime: nat) returns (b: CBlockIndex)
    requires pprev != null ==> pprev.Skipping()
    ensures b.Skipping() && b.pprev == pprev && b.nTime == nTime
  {
    if pprev == null {
      b := new CBlockIndex(null, null, 0, nTime);
    } else {
      var nHeight := pprev.nHeight + 1;
      var pskip := pprev.GetAncestor(GetSkipHeight(nHeight));
      b := new CBlockIndex(pprev, pskip, nHeight, nTime);
    }
  }

  // ----- SetTip -----

  type Index = seq<CBlockIndex?>

  /** From genesis to the entry. */
  function Path(b: CBlockIndex): (v: Index)
    requires b.Linked()
    ensures |v| == b.nHeight + 1
  {
    seq(b.nHeight + 1, i requires 0 <= i <= b.nHeight => b.Ancestor(i))
  }

  ghost predicate IsPath(v: Index) {
    v == [] || (v[|v| - 1] != null && v[|v| - 1].Linked() && v == Path(v[|v| - 1]))
  }

  function Resized(v: Index, n: nat): (r: Index)
    ensures |r| == n
  {
    if n <= |v| then v[..n] else v + seq(n - |v|, _ => null)
  }

  /** The loop of SetTip: overwrite until an entry is already in place. */
  function Overwritten(v: Index, b: CBlockIndex): (r: Index)
    requires b.Linked() && b.nHeight < |v|
    ensures |r| == |v|
    decreases b.nHeight
  {
    if v[b.nHeight] == b then v
    else if b.pprev == null then v[b.nHeight := b]
    else Overwritten(v[b.nHeight := b], b.pprev)
  }

  function Tipped(v: Index, b: CBlockIndex?): Index
    requires b != null ==> b.Linked()
  {
    if b == null then [] else Overwritten(Resized(v, b.nHeight + 1), b)
  }

  /** Up to height h, an entry that is there has its own ancestors below it. */
  ghost predicate PathBelow(v: Index, h: nat) {
    forall i :: 0 <= i <= h && i < |v| && v[i] != null ==> PathTo(v, i)
  }

  ghost predicate PathTo(v: Index, i: nat)
    requires i < |v| && v[i] != null
  {
    v[i].Linked() && v[i].nHeight == i && forall j :: 0 <= j <= i ==> v[j] == v[i].Ancestor(j)
  }

  lemma PathIsBelow(v: Index, n: nat)
    requires IsPath(v) && n > 0
    ensures PathBelow(Resized(v, n), n - 1)
  {
    var r := Resized(v, n);
    forall i | 0 <= i < n && r[i] != null ensures PathTo(r, i) {
      var tip := v[|v| - 1];
      forall j | 0 <= j <= i ensures r[j] == r[i].Ancestor(j) { tip.AncestorOfAncestor(j, i); }
    }
  }

  /** Stopping early loses nothing: below an entry that is in place, its ancestors are. */
  lemma {:induction false} OverwrittenIsPath(v: Index, b: CBlockIndex)
    requires b.Linked() && b.nHeight < |v| && PathBelow(v, b.nHeight)
    ensures var r := Overwritten(v, b);
      (forall i :: 0 <= i <= b.nHeight ==> r[i] == b.Ancestor(i)) && r[b.nHeight + 1..] == v[b.nHeight + 1..]
    decreases b.nHeight
  {
    if v[b.nHeight] == b {
      assert PathTo(v, b.nHeight);
    } else if b.pprev != null {
      var w := v[b.nHeight := b];
      forall i | 0 <= i <= b.pprev.nHeight && w[i] != null ensures PathTo(w, i) { assert PathTo(v, i); }
      OverwrittenIsPath(w, b.pprev);
      var r := Overwritten(v, b);
      assert r[b.nHeight] == r[b.pprev.nHeight + 1..][0] == w[b.pprev.nHeight + 1..][0] == b;
      assert r[b.nHeight + 1..] == r[b.pprev.nHeight + 1..][1..];
      forall i | 0 <= i < b.nHeight ensures r[i] == b.Ancestor(i) { assert b.Ancestor(i) == b.pprev.Ancestor(i); }
    }
  }

  lemma TippedIsPath(v: Index, b: CBlockIndex?)
    requires IsPath(v) && (b != null ==> b.Linked())
    ensures Tipped(v, b) == if b == null then [] else Path(b)
    ensures IsPath(Tipped(v, b))
  {
    if b != null {
      PathIsBelow(v, b.nHeight + 1);
      OverwrittenIsPath(Resized(v, b.nHeight + 1), b);
      assert Tipped(v, b) == Path(b);
      assert b.Ancestor(b.nHeight) == b;
    }
  }

  function TippedByAll(tips: seq<CBlockIndex?>): Index
    requires forall i :: 0 <= i < |tips| && tips[i] != null ==> tips[i].Linked()
  {
    if tips == [] then [] else Tipped(TippedByAll(tips[..|tips| - 1]), tips[|tips| - 1])
  }

  /** After any run of SetTip the index is the path from genesis to the last tip. */
  lemma {:induction false} RunsIndexThePath(tips: seq<CBlockIndex?>)
    requires forall i :: 0 <= i < |tips| && tips[i] != null ==> tips[i].Linked()
    ensures IsPath(TippedByAll(tips))
    ensures |tips| > 0 ==> TippedByAll(tips) == if tips[|tips| - 1] == null then [] else Path(tips[|tips| - 1])
  {
    if tips != [] {
      RunsIndexThePath(tips[..|tips| - 1]);
      TippedIsPath(TippedByAll(tips[..|tips| - 1]), tips[|tips| - 1]);
    }
  }

  // ----- FindFork -----

  predicate Holds(v: Index, b: CBlockIndex) {
    b.nHeight < |v| && v[b.nHeight] == b
  }

  /** The highest entry that the chain and the argument's ancestry have in common; null if they have none. */
  ghost predicate IsFork(v: Index, b: CBlockIndex, r: CBlockIndex?)
    requires b.Linked()
  {
    && (r != null ==> r.nHeight <= b.nHeight && r == b.Ancestor(r.nHeight) && Holds(v, r))
    && (forall h :: 0 <= h <= b.nHeight && (r == null || h > r.nHeight) ==> !Holds(v, b.Ancestor(h)))
  }

  // ----- GetLocator -----

  /** The heights of a locator: n entries are there already. */
  function LocatorHeights(h: nat, nStep: nat, n: nat): (r: seq<nat>)
    requires nStep > 0
    ensures |r| > 0 && r[0] == h
    decreases h
  {
    if h == 0 then [0]
    else [h] + LocatorHeights(if h > nStep then h - nStep else 0, if n + 1 > 10 then nStep * 2 else nStep, n + 1)
  }

  /** Strictly descending, down to genesis. */
  lemma {:induction false} LocatorDescends(h: nat, nStep: nat, n: nat)
    requires nStep > 0
    ensures var r := LocatorHeights(h, nStep, n);
      (forall i :: 0 <= i < |r| ==> r[i] <= h) && (forall i, j :: 0 <= i < j < |r| ==> r[i] > r[j]) && r[|r| - 1] == 0
    decreases h
  {
    if h > 0 {
      LocatorDescends(if h > nStep then h - nStep else 0, if n + 1 > 10 then nStep * 2 else nStep, n + 1);
    }
  }

  /** Once the steps double with every entry, m more entries need a height above the sum of their steps. */
  lemma {:induction false} DoublingSteps(h: nat, nStep: nat, n: nat)
    requires nStep > 0 && n >= 10
    ensures var m := |LocatorHeights(h, nStep, n)|; m >= 2 ==> nStep * (Pow(2, m - 2) - 1) < h
    decreases h
  {
    hide Pow;
    PowZero(2);
    if h > 0 {
      var h' := if h > nStep then h - nStep else 0;
      DoublingSteps(h', nStep * 2, n + 1);
      var m := |LocatorHeights(h', nStep * 2, n + 1)|;
      if m >= 2 {
        PowNext(2, m - 2);
        assert nStep * 2 * (Pow(2, m - 2) - 1) == nStep * (2 * Pow(2, m - 2) - 1) - nStep;
      }
    }
  }

  lemma {:induction false} SingleSteps(h: nat, n: nat)
    requires n <= 10
    ensures var m := |LocatorHeights(h, 1, n)|; m <= 12 - n || Pow(2, m - (12 - n)) <= h
    decreases 10 - n
  {
    hide Pow;
    if n == 10 {
      DoublingSteps(h, 1, n);
      PowZero(2);
      var m := |LocatorHeights(h, 1, n)|;
      if m > 2 { PowGrows(2, 1, m - 2); }
    } else if h > 0 {
      SingleSteps(if h > 1 then h - 1 else 0, n + 1);
    }
  }

  /** A locator has at most twelve entries more than the logarithm of the height. */
  lemma LocatorIsShort(h: nat)
    ensures var m := |LocatorHeights(h, 1, 0)|; m <= 12 || Pow(2, m - 12) <= h
  {
    SingleSteps(h, 0);
  }

  function Ancestors(b: CBlockIndex, heights: seq<nat>): seq<CBlockIndex>
    requires b.Linked() && forall i :: 0 <= i < |heights| ==> heights[i] <= b.nHeight
  {
    seq(|heights|, i requires 0 <= i < |heights| => b.Ancestor(heights[i]))
  }

  function Locator(b: CBlockIndex): seq<CBlockIndex>
    requires b.Linked()
  {
    LocatorDescends(b.nHeight, 1, 0);
    Ancestors(b, LocatorHeights(b.nHeight, 1, 0))
  }

  class CChain {
    var vChain: Index

    constructor ()
      ensures vChain == []
    {
      vChain := [];
    }

    function At(nHeight: int): CBlockIndex?
      reads this
    {
      if nHeight < 0 || nHeight >= |vChain| then null else vChain[nHeight]
    }

    predicate Contains(b: CBlockIndex)
      reads this
    {
      At(b.nHeight) == b
    }

    function Tip(): CBlockIndex?
      reads this
    {
      if |vChain| < 1 then null else vChain[|vChain| - 1]
    }

    /** What the chain answers of the path to an entry: its tip, its ancestors by height, and which entries are among them. */
    lemma AnswersOfPath(b: CBlockIndex, nHeight: int, c: CBlockIndex)
      requires b.Linked() && vChain == Path(b) && c.Linked()
      ensures Tip() == b
      ensures At(nHeight) == if 0 <= nHeight <= b.nHeight then b.Ancestor(nHeight) else null
      ensures Contains(c) <==> c.nHeight <= b.nHeight && b.Ancestor(c.nHeight) == c
    {
      assert b.Ancestor(b.nHeight) == b;
    }

    /** The successor of an entry in the chain: null for the tip, and for an entry that is not in it. */
    method Next(b: CBlockIndex) returns (r: CBlockIndex?)
      requires IsPath(vChain) && b.Linked()
      ensures r != null <==> Holds(vChain, b) && b != Tip()
      ensures r != null ==> r.pprev == b && Holds(vChain, r)
    {
      if Contains(b) {
        r := At(b.nHeight + 1);
        if r != null {
          var tip := vChain[|vChain| - 1];
          tip.AncestorOfAncestor(b.nHeight, r.nHeight);
          assert r.Ancestor(b.nHeight) == r.pprev;
        }
      } else {
        r := null;
      }
    }

    method SetTip(pindex: CBlockIndex?)
      requires IsPath(vChain) && (pindex != null ==> pindex.Linked())
      modifies this
      ensures vChain == Tipped(old(vChain), pindex)
      ensures vChain == if pindex == null then [] else Path(pindex)
      ensures IsPath(vChain)
    {
      TippedIsPath(vChain, pindex);
      if pindex == null {
        vChain := [];
        return;
      }
      ghost var goal := Tipped(vChain, pindex);
      vChain := if pindex.nHeight + 1 <= |vChain| then vChain[..pindex.nHeight + 1]
                else vChain + seq(pindex.nHeight + 1 - |vChain|, _ => null);
      var walk := pindex;
      while walk != null && vChain[walk.nHeight] != walk
        invariant walk != null ==> walk.Linked() && walk.nHeight < |vChain| && Overwritten(vChain, walk) == goal
        invariant walk == null ==> vChain == goal
        decreases if walk == null then 0 else walk.nHeight + 1
      {
        vChain := vChain[walk.nHeight := walk];
        walk := walk.pprev;
      }
    }

    method FindFork(pindex: CBlockIndex) returns (r: CBlockIndex?)
      requires IsPath(vChain) && pindex.Skipping()
      ensures IsFork(vChain, pindex, r)
    {
      r := pindex;
      if pindex.nHeight > |vChain| - 1 {
        r := pindex.GetAncestor(|vChain| - 1);
      }
      while r != null && !Contains(r)
        invariant r != null ==> r.nHeight <= pindex.nHeight && r == pindex.Ancestor(r.nHeight)
        invariant forall h :: 0 <= h <= pindex.nHeight && (r == null || h > r.nHeight) ==> !Holds(vChain, pindex.Ancestor(h))
        decreases if r == null then 0 else r.nHeight + 1
      {
        if r.nHeight > 0 { pindex.AncestorOfAncestor(r.nHeight - 1, r.nHeight); }
        r := r.pprev;
      }
    }

    /** The locator's entries, whose hashes the code collects; of the tip, if no entry is given. */
    method GetLocator(pindex: CBlockIndex?) returns (vHave: seq<CBlockIndex>)
      requires IsPath(vChain) && (pindex != null ==> pindex.Skipping()) && (Tip() != null ==> Tip().Skipping())
      ensures var start := if pindex == null then Tip() else pindex;
        if start == null then vHave == [] else start.Linked() && vHave == Locator(start)
    {
      hide LocatorHeights, IsPath, Holds, Listed, Ancestors;
      var nStep := 1;
      vHave := [];
      var walk := if pindex == null then Tip() else pindex;
      if walk == null {
        return;
      }
      var start: CBlockIndex := walk;
      ghost var heights: seq<nat> := [];
      ghost var all := LocatorHeights(start.nHeight, 1, 0);
      ListedNone(start);
      while walk != null
        invariant nStep > 0 && Listed(start, heights, vHave)
        invariant walk != null ==> walk.nHeight <= start.nHeight && walk == start.Ancestor(walk.nHeight)
        invariant all == heights + if walk == null then [] else LocatorHeights(walk.nHeight, nStep, |heights|)
        decreases if walk == null then 0 else walk.nHeight + 1
      {
        ListedMore(start, heights, vHave, walk.nHeight);
        NextHeight(walk.nHeight, nStep, |heights|, heights);
        vHave := vHave + [walk];
        heights := heights + [walk.nHeight];
        if walk.nHeight == 0 {
          break;
        }
        var nHeight := if walk.nHeight > nStep then walk.nHeight - nStep else 0;
        start.AncestorOfAncestor(nHeight, walk.nHeight);
        if Contains(walk) {
          InChain(vChain, walk, nHeight);
          walk := At(nHeight);
        } else {
          start.AncestorSkips(walk.nHeight);
          walk := walk.GetAncestor(nHeight);
        }
        if |vHave| > 10 {
          nStep := nStep * 2;
        }
      }
      assert heights == all;
      ListedIsLocator(start, heights, vHave);
    }
  }

  /** The entries collected so far. */
  ghost predicate Listed(start: CBlockIndex, heights: seq<nat>, have: seq<CBlockIndex>)
    requires start.Linked()
  {
    |have| == |heights| && forall i :: 0 <= i < |heights| ==> heights[i] <= start.nHeight && have[i] == start.Ancestor(heights[i])
  }

  lemma ListedNone(start: CBlockIndex)
    requires start.Linked()
    ensures Listed(start, [], [])
  {}

  lemma ListedMore(start: CBlockIndex, heights: seq<nat>, have: seq<CBlockIndex>, h: nat)
    requires start.Linked() && Listed(start, heights, have) && h <= start.nHeight
    ensures |have| == |heights| && Listed(start, heights + [h], have + [start.Ancestor(h)])
  {}

  lemma ListedIsLocator(start: CBlockIndex, heights: seq<nat>, have: seq<CBlockIndex>)
    requires start.Linked() && Listed(start, heights, have) && heights == LocatorHeights(start.nHeight, 1, 0)
    ensures have == Locator(start)
  {
    LocatorDescends(start.nHeight, 1, 0);
  }

  lemma NextHeight(h: nat, nStep: nat, n: nat, before: seq<nat>)
    requires nStep > 0
    ensures before + LocatorHeights(h, nStep, n) == before + [h] +
      if h == 0 then [] else LocatorHeights(if h > nStep then h - nStep else 0, if n + 1 > 10 then nStep * 2 else nStep, n + 1)
  {}

  /** Below an entry of the chain the chain holds its ancestors. */
  lemma InChain(v: Index, b: CBlockIndex, h: nat)
    requires IsPath(v) && Holds(v, b) && h <= b.nHeight
    ensures b.Linked() && v[h] == b.Ancestor(h)
  {
    var tip := v[|v| - 1];
    tip.AncestorOfAncestor(h, b.nHeight);
  }

  // ----- Median time past -----

  /** std::sort */
  function Sort(s: seq<nat>): (r: seq<nat>)
    ensures |r| == |s|
  {
    if s == [] then [] else Insert(Sort(s[1..]), s[0])
  }

  function Insert(s: seq<nat>, x: nat): (r: seq<nat>)
    ensures |r| == |s| + 1
  {
    if s == [] || x <= s[0] then [x] + s else [s[0]] + Insert(s[1..], x)
  }

  ghost predicate Ascending(s: seq<nat>) {
    forall i, j :: 0 <= i < j < |s| ==> s[i] <= s[j]
  }

  lemma {:induction false} InsertAscends(s: seq<nat>, x: nat)
    requires Ascending(s)
    ensures Ascending(Insert(s, x))
    ensures Insert(s, x)[0] == if s == [] || x <= s[0] then x else s[0]
  {
    if s != [] && x > s[0] {
      InsertAscends(s[1..], x);
    }
  }

  lemma {:induction false} InsertAdds(s: seq<nat>, x: nat)
    ensures multiset(Insert(s, x)) == multiset(s) + multiset{x}
  {
    if s != [] {
      assert s == [s[0]] + s[1..];
      if x > s[0] { InsertAdds(s[1..], x); }
    }
  }

  lemma {:induction false} SortSorts(s: seq<nat>)
    ensures Ascending(Sort(s)) && multiset(Sort(s)) == multiset(s)
  {
    if s != [] {
      SortSorts(s[1..]);
      InsertAscends(Sort(s[1..]), s[0]);
      InsertAdds(Sort(s[1..]), s[0]);
      assert s == [s[0]] + s[1..];
    }
  }

  const MEDIAN_TIME_SPAN := 11

  /** The times of an entry and those before it, n at most, the latest last. */
  function Window(b: CBlockIndex, n: nat): (w: seq<nat>)
    requires b.Linked() && n > 0
    ensures |w| == if b.nHeight + 1 < n then b.nHeight + 1 else n
    decreases b.nHeight
  {
    if n == 1 || b.pprev == null then [b.nTime] else Window(b.pprev, n - 1) + [b.nTime]
  }

  function Median(w: seq<nat>): nat
    requires |w| > 0
  {
    Sort(w)[|w| / 2]
  }

  function MedianTimePast(b: CBlockIndex): nat
    requires b.Linked()
  {
    Median(Window(b, MEDIAN_TIME_SPAN))
  }

  /** How many are below m. */
  function Below(s: seq<nat>, m: nat): (n: nat)
    ensures n <= |s|
  {
    if s == [] then 0 else Below(s[1..], m) + if s[0] < m then 1 else 0
  }

  lemma {:induction false} BelowInsert(s: seq<nat>, x: nat, m: nat)
    ensures Below(Insert(s, x), m) == Below(s, m) + if x < m then 1 else 0
  {
    if s == [] || x <= s[0] {
      assert ([x] + s)[1..] == s;
    } else {
      BelowInsert(s[1..], x, m);
      assert Insert(s, x)[1..] == Insert(s[1..], x);
    }
  }

  lemma {:induction false} BelowSort(s: seq<nat>, m: nat)
    ensures Below(Sort(s), m) == Below(s, m)
  {
    if s != [] {
      BelowSort(s[1..], m);
      BelowInsert(Sort(s[1..]), s[0], m);
    }
  }

  /** In ascending order the k-th is at least m exactly when no more than k are below m. */
  lemma {:induction false} BelowAscending(s: seq<nat>, k: nat, m: nat)
    requires Ascending(s) && k < |s|
    ensures s[k] >= m <==> Below(s, m) <= k
  {
    if k > 0 {
      BelowAscending(s[1..], k - 1, m);
    }
    if s[0] >= m { NoneBelow(s, m); }
  }

  lemma {:induction false} NoneBelow(s: seq<nat>, m: nat)
    requires forall i :: 0 <= i < |s| ==> s[i] >= m
    ensures Below(s, m) == 0
  {
    if s != [] { NoneBelow(s[1..], m); }
  }

  lemma MedianAtLeast(w: seq<nat>, m: nat)
    requires |w| > 0
    ensures Median(w) >= m <==> Below(w, m) <= |w| / 2
  {
    SortSorts(w);
    BelowSort(w, m);
    BelowAscending(Sort(w), |w| / 2, m);
  }

  lemma {:induction false} BelowAppend(s: seq<nat>, x: nat, m: nat)
    ensures Below(s + [x], m) == Below(s, m) + if x < m then 1 else 0
  {
    if s == [] {
      assert s + [x] == [x];
    } else {
      BelowAppend(s[1..], x, m);
      assert (s + [x])[1..] == s[1..] + [x];
    }
  }

  /** The window of the next entry: the same without the oldest, if it was full, and the new time. */
  lemma {:induction false} WindowMoves(b: CBlockIndex, n: nat)
    requires b.Linked() && b.pprev != null && n > 0
    ensures var w := Window(b.pprev, n);
      Window(b, n) == (if b.pprev.nHeight + 1 < n then w else w[1..]) + [b.nTime]
    decreases n
  {
    if n > 1 && b.pprev.pprev != null {
      WindowMoves(b.pprev, n - 1);
    }
  }

  /** An entry whose time is later than the median time past of the one before it. */
  ghost predicate TimeRule(b: CBlockIndex)
    requires b.Linked()
    decreases b.nHeight
  {
    b.pprev != null ==> b.nTime > MedianTimePast(b.pprev) && TimeRule(b.pprev)
  }

  lemma MedianStepsForward(b: CBlockIndex)
    requires b.Linked() && b.pprev != null && b.nTime > MedianTimePast(b.pprev)
    ensures MedianTimePast(b) >= MedianTimePast(b.pprev)
  {
    var w, w' := Window(b.pprev, MEDIAN_TIME_SPAN), Window(b, MEDIAN_TIME_SPAN);
    var m := Median(w);
    WindowMoves(b, MEDIAN_TIME_SPAN);
    MedianAtLeast(w, m);
    BelowAppend(w, b.nTime, m);
    BelowAppend(w[1..], b.nTime, m);
    MedianAtLeast(w', m);
  }

  /** Under the rule the median time past never decreases along a chain, first entries included. */
  lemma {:induction false} MedianNeverDecreases(b: CBlockIndex, h: nat)
    requires b.Linked() && TimeRule(b) && h <= b.nHeight
    ensures MedianTimePast(b) >= MedianTimePast(b.Ancestor(h))
    decreases b.nHeight
  {
    if h < b.nHeight {
      MedianStepsForward(b);
      MedianNeverDecreases(b.pprev, h);
    }
  }

  lemma WindowBefore(b: CBlockIndex, n: nat)
    requires b.Linked() && n > 0
    ensures b.pprev != null ==> b.pprev.Linked()
    ensures Window(b, n) == (if n == 1 || b.pprev == null then [] else Window(b.pprev, n - 1)) + [b.nTime]
  {}

  /** The array is filled from its end; std::sort orders the filled part. */
  method GetMedianTimePast(b: CBlockIndex) returns (r: nat)
    requires b.Linked()
    ensures r == MedianTimePast(b)
  {
    hide Window, Sort, CBlockIndex.Linked;
    var pmedian := new nat[MEDIAN_TIME_SPAN](_ => 0);
    var pbegin := MEDIAN_TIME_SPAN;
    var walk: CBlockIndex? := b;
    var i := 0;
    while i < MEDIAN_TIME_SPAN && walk != null
      invariant 0 <= i <= MEDIAN_TIME_SPAN && pbegin == MEDIAN_TIME_SPAN - i && (walk != null ==> walk.Linked())
      invariant Window(b, MEDIAN_TIME_SPAN) ==
        (if walk == null || i == MEDIAN_TIME_SPAN then [] else Window(walk, MEDIAN_TIME_SPAN - i)) + pmedian[pbegin..]
      invariant i == 0 ==> walk == b
    {
      WindowBefore(walk, MEDIAN_TIME_SPAN - i);
      ghost var was := pmedian[pbegin..];
      pbegin := pbegin - 1;
      pmedian[pbegin] := walk.nTime;
      assert pmedian[pbegin..] == [walk.nTime] + was;
      i := i + 1;
      walk := walk.pprev;
    }
    assert pmedian[pbegin..] == Window(b, MEDIAN_TIME_SPAN);
    var sorted := Sort(pmedian[pbegin..]);
    r := sorted[(MEDIAN_TIME_SPAN - pbegin) / 2];
  }
}
