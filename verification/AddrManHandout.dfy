/** What GetAddr_ hands out, whatever the draws: entries worth having, and all of them if they are few. */
module AddrManHandout {
  import opened AddrManState
  import opened AddrManOps

  /** The same entries under the same ids and addresses; only their places in vRandom differ. */
  ghost predicate Rearranged(s: AddrMan, t: AddrMan) {
    && t == s.(mapInfo := t.mapInfo, vRandom := t.vRandom) && t.mapInfo.Keys == s.mapInfo.Keys
    && forall id :: id in s.mapInfo ==> SameButPlace(s.mapInfo[id], t.mapInfo[id])
  }

  predicate SameButPlace(a: Info, b: Info) {
    b == a.(nRandomPos := b.nRandomPos)
  }

  /** Of the entries at the first n places exactly those that are not terrible have been handed out. */
  ghost predicate Outcome(s: AddrMan, n: nat, now: int, ids: seq<int>) {
    && n <= |s.vRandom| && Handed(s, n, ids)
    && forall i :: 0 <= i < n ==> s.vRandom[i] in s.mapInfo && (s.vRandom[i] in ids <==> !s.mapInfo[s.vRandom[i]].IsTerrible(now))
  }

  lemma NothingYet(s: AddrMan, now: int)
    ensures Outcome(s, 0, now, [])
  {}

  lemma SwapRearranges(h: Hashes, s: AddrMan, n: nat, j: nat)
    requires Inv(h, s) && n <= j < |s.vRandom|
    ensures Swappable(s, n, j) && Rearranged(s, Swapped(s, n, j)) && |Swapped(s, n, j).vRandom| == |s.vRandom|
    ensures forall id :: id in s.mapInfo && s.mapInfo[id].nRandomPos < n ==>
      id in Swapped(s, n, j).mapInfo && Swapped(s, n, j).mapInfo[id] == s.mapInfo[id]
    ensures forall i :: 0 <= i < n ==> Swapped(s, n, j).vRandom[i] == s.vRandom[i]
  {
    hide Live, Tabled, Referenced, Sizes;
    CanSwap(h, s, n, j);
    PlaceHolds(h, s, n);
    PlaceHolds(h, s, j);
    SwappedAt(s, n, j);
  }

  lemma SwapSpares(h: Hashes, s: AddrMan, n: nat, j: nat, id: int)
    requires Inv(h, s) && n <= j < |s.vRandom| && id in s.mapInfo && s.mapInfo[id].nRandomPos < n
    ensures Swappable(s, n, j) && id in Swapped(s, n, j).mapInfo && Swapped(s, n, j).mapInfo[id] == s.mapInfo[id]
  {
    hide Inv, Swapped, Swappable;
    SwapRearranges(h, s, n, j);
  }

  /** One round: what has been handed out keeps its entries, and the next one joins it unless it is terrible. */
  lemma StepOutcome(h: Hashes, s: AddrMan, n: nat, now: int, rnd: nat -> nat, got: seq<int>)
    requires Inv(h, s) && n < |s.vRandom| && Outcome(s, n, now, got)
    ensures var (t, got') := ShuffleStep(s, n, now, rnd, got);
      && Rearranged(s, t) && Outcome(t, n + 1, now, got')
      && (forall id :: id in got ==> id in s.mapInfo && id in t.mapInfo && t.mapInfo[id] == s.mapInfo[id])
  {
    hide Inv, Swapped, Swappable, ShuffleStep, Info.IsTerrible, Rearranged;
    var j := PickFrom(rnd, n, |s.vRandom|);
    SwapRearranges(h, s, n, j);
    ShuffleStepIs(h, s, n, now, rnd, got);
    ShuffleStepKeeps(h, s, n, now, rnd, got);
    var (t, got') := ShuffleStep(s, n, now, rnd, got);
    PlacesBelow(h, s, n);
    PlacesBelow(h, t, n + 1);
    assert t == Swapped(s, n, j);
    forall k | 0 <= k < |got|
      ensures got[k] in t.mapInfo && got[k] in s.mapInfo && t.mapInfo[got[k]] == s.mapInfo[got[k]] && s.mapInfo[got[k]].nRandomPos < n
    {
      SwapSpares(h, s, n, j, got[k]);
    }
    NotHandedYet(h, t, n, got);
    forall i | 0 <= i < n + 1 ensures t.vRandom[i] in got' <==> !t.mapInfo[t.vRandom[i]].IsTerrible(now) {
      PlacesDiffer(h, t, i, n);
      if i < n { assert t.mapInfo[t.vRandom[i]] == s.mapInfo[s.vRandom[i]]; }
    }
  }

  lemma PlacesBelow(h: Hashes, s: AddrMan, n: nat)
    requires Inv(h, s) && n <= |s.vRandom|
    ensures forall i :: 0 <= i < n ==> s.vRandom[i] in s.mapInfo && s.mapInfo[s.vRandom[i]].nRandomPos == i
  {
    forall i | 0 <= i < n ensures s.vRandom[i] in s.mapInfo && s.mapInfo[s.vRandom[i]].nRandomPos == i { PlaceHolds(h, s, i); }
  }

  lemma PlacesDiffer(h: Hashes, s: AddrMan, i: nat, n: nat)
    requires Inv(h, s) && i <= n < |s.vRandom|
    ensures s.vRandom[i] == s.vRandom[n] ==> i == n
  {
    PlaceHolds(h, s, i);
    PlaceHolds(h, s, n);
  }

  lemma NotHandedYet(h: Hashes, t: AddrMan, n: nat, got: seq<int>)
    requires Inv(h, t) && n < |t.vRandom| && forall k :: 0 <= k < |got| ==> got[k] in t.mapInfo && t.mapInfo[got[k]].nRandomPos < n
    ensures t.vRandom[n] !in got
  {
    PlaceHolds(h, t, n);
  }

  lemma RearrangedTwice(s: AddrMan, t: AddrMan, u: AddrMan)
    requires Rearranged(s, t) && Rearranged(t, u)
    ensures Rearranged(s, u)
  {
    forall id | id in s.mapInfo ensures SameButPlace(s.mapInfo[id], u.mapInfo[id]) {
      assert SameButPlace(s.mapInfo[id], t.mapInfo[id]) && SameButPlace(t.mapInfo[id], u.mapInfo[id]);
    }
  }

  /** The rounds stop with enough, or with all places looked at. */
  lemma {:induction false} ShuffledOutcome(h: Hashes, s: AddrMan, n: nat, nNodes: int, now: int, rnd: nat -> nat, got: seq<int>) returns (m: nat)
    requires Inv(h, s) && Outcome(s, n, now, got)
    ensures var (s', ids) := Shuffled(s, n, nNodes, now, rnd, got);
      && Inv(h, s') && Rearranged(s, s') && Outcome(s', m, now, ids) && (|ids| >= nNodes || m == |s'.vRandom|)
    decreases |s.vRandom| - n
  {
    hide Inv, Handed, ShuffleStep, Info.IsTerrible;
    m := n;
    if n < |s.vRandom| && |got| < nNodes {
      ShuffleStepKeeps(h, s, n, now, rnd, got);
      StepOutcome(h, s, n, now, rnd, got);
      var (t, got') := ShuffleStep(s, n, now, rnd, got);
      m := ShuffledOutcome(h, t, n + 1, nNodes, now, rnd, got');
      RearrangedTwice(s, t, Shuffled(s, n, nNodes, now, rnd, got).0);
    }
  }

  lemma RearrangedAlike(s: AddrMan, t: AddrMan, now: int)
    requires Rearranged(s, t)
    ensures forall id :: id in s.mapInfo ==> s.mapInfo[id].IsTerrible(now) == t.mapInfo[id].IsTerrible(now)
  {
    forall id | id in s.mapInfo ensures s.mapInfo[id].IsTerrible(now) == t.mapInfo[id].IsTerrible(now) {
      assert SameButPlace(s.mapInfo[id], t.mapInfo[id]);
    }
  }

  /**
    GetAddr_ for any draws: it hands out distinct entries that are not terrible, up to the limit, changes nothing but
    places in vRandom, and if it stays below the limit it has handed out every entry that is not terrible.
    */
  lemma HandsOutTheGood(h: Hashes, s: AddrMan, now: int, rnd: nat -> nat)
    requires Inv(h, s)
    ensures var (t, ids) := Shuffled(s, 0, AddrLimit(s), now, rnd, []);
      && Rearranged(s, t) && |ids| <= AddrLimit(s) && (forall j, k :: 0 <= j < k < |ids| ==> ids[j] != ids[k])
      && (forall id :: id in ids ==> id in s.mapInfo && !s.mapInfo[id].IsTerrible(now))
      && (|ids| < AddrLimit(s) ==> forall id :: id in s.mapInfo && !s.mapInfo[id].IsTerrible(now) ==> id in ids)
  {
    hide Shuffled, Info.IsTerrible, Rearranged, Tabled, Referenced, Sizes, Live;
    NothingHanded(s);
    ShuffledKeeps(h, s, 0, AddrLimit(s), now, rnd, []);
    var m := ShuffledOutcome(h, s, 0, AddrLimit(s), now, rnd, []);
    var (t, ids) := Shuffled(s, 0, AddrLimit(s), now, rnd, []);
    RearrangedAlike(s, t, now);
    RearrangedKeys(s, t);
    forall id | id in t.mapInfo ensures 0 <= t.mapInfo[id].nRandomPos < |t.vRandom| && t.vRandom[t.mapInfo[id].nRandomPos] == id {
      assert IdOk(t, id);
    }
  }

  lemma RearrangedKeys(s: AddrMan, t: AddrMan)
    requires Rearranged(s, t)
    ensures t.mapInfo.Keys == s.mapInfo.Keys && |t.vRandom| >= 0
  {}
}
