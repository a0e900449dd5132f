/** CAddrMan: the object, with its bucket arrays, whose methods carry out the transitions of AddrManOps. */
module CAddrMan {
  import opened Arith
  import opened AddrManState
  import O = AddrManOps
  import G = AddrManHandout

  /** The occupied slots of a bucket array; -1 marks a free one. */
  ghost function Occupied(a: array2<int>): Table
    reads a
  {
    map b, p | 0 <= b < a.Length0 && 0 <= p < a.Length1 && a[b, p] != -1 :: (b, p) := a[b, p]
  }

  lemma SlotRead(a: array2<int>, b: nat, p: nat)
    requires b < a.Length0 && p < a.Length1
    ensures (b, p) in Occupied(a) <==> a[b, p] != -1
    ensures a[b, p] != -1 ==> Occupied(a)[(b, p)] == a[b, p]
  {}

  lemma SwapKeepsEntry(s: AddrMan, i: nat, j: nat, id: int)
    requires Swappable(s, i, j) && id in s.mapInfo
    ensures var w := Swapped(s, i, j); id in w.mapInfo && w.mapInfo[id].service == s.mapInfo[id].service && |w.vRandom| == |s.vRandom|
  {}

  method SetSlot(a: array2<int>, b: nat, p: nat, id: int)
    requires b < a.Length0 && p < a.Length1 && id != -1
    modifies a
    ensures Occupied(a) == old(Occupied(a))[(b, p) := id]
  {
    a[b, p] := id;
  }

  method FreeSlot(a: array2<int>, b: nat, p: nat)
    requires b < a.Length0 && p < a.Length1
    modifies a
    ensures Occupied(a) == old(Occupied(a)) - {(b, p)}
  {
    a[b, p] := -1;
  }

  /** The slots in the buckets below a given one that hold an id. */
  ghost function SlotsBelow(t: Table, id: int, bucket: nat): set<Slot> {
    set sl | sl in t && t[sl] == id && sl.0 < bucket
  }

  /** An id can only be in one slot of a bucket, the one its hash names. */
  lemma SlotsBelowGrows(h: Hashes, s: AddrMan, id: int, bucket: nat)
    requires Core(h, s) && id in s.mapInfo
    ensures var sl := h.NewSlot(s.mapInfo[id].service, bucket); var below := SlotsBelow(s.vvNew, id, bucket);
      var hit := sl in s.vvNew && s.vvNew[sl] == id;
      && sl !in below
      && |SlotsBelow(s.vvNew, id, bucket + 1)| == |below| + (if hit then 1 else 0)
      && s.vvNew - SlotsBelow(s.vvNew, id, bucket + 1) == if hit then s.vvNew - below - {sl} else s.vvNew - below
  {
    var sl, below := h.NewSlot(s.mapInfo[id].service, bucket), SlotsBelow(s.vvNew, id, bucket);
    forall sl | sl in s.vvNew && s.vvNew[sl] == id && sl.0 == bucket ensures sl == h.NewSlot(s.mapInfo[id].service, bucket) {
      assert NewOk(h, s, sl);
    }
    assert SlotsBelow(s.vvNew, id, bucket + 1) == if sl in s.vvNew && s.vvNew[sl] == id then below + {sl} else below;
  }

  lemma NoneBelowZero(t: Table, id: int)
    ensures SlotsBelow(t, id, 0) == {} && t - SlotsBelow(t, id, 0) == t
  {}

  lemma SlotsBelowTop(h: Hashes, s: AddrMan, id: int)
    requires Core(h, s)
    ensures SlotsBelow(s.vvNew, id, NEW_BUCKET_COUNT) == SlotsOf(s.vvNew, id)
  {
    forall sl | sl in s.vvNew ensures sl.0 < NEW_BUCKET_COUNT { assert NewOk(h, s, sl); }
  }

  lemma IdsAreNat(h: Hashes, s: AddrMan, id: int)
    requires Core(h, s) && id in s.mapInfo
    ensures 0 <= id && s.mapInfo[id].nRefCount == |SlotsOf(s.vvNew, id)|
  {
    assert IdOk(s, id) && RefOk(s, id);
  }

  lemma LiveIsLooser(s: AddrMan, id: int)
    requires Live(s, {})
    ensures Live(s, {id})
  {
    forall i | i in s.mapInfo ensures LiveId(s.mapInfo[i], i in {id}) { assert LiveId(s.mapInfo[i], i in {}); }
  }

  lemma NewSlotHolder(h: Hashes, s: AddrMan, sl: Slot)
    requires Core(h, s) && sl in s.vvNew
    ensures s.vvNew[sl] in s.mapInfo
  {
    assert NewOk(h, s, sl);
  }

  lemma TriedSlotHolder(h: Hashes, s: AddrMan, sl: Slot)
    requires Core(h, s) && sl in s.vvTried
    ensures s.vvTried[sl] in s.mapInfo && s.mapInfo[s.vvTried[sl]].fInTried
    ensures sl == h.TriedSlot(s.mapInfo[s.vvTried[sl]].service) && s.vvTried[sl] >= 0
  {
    assert TriedOk(h, s, sl) && IdOk(s, s.vvTried[sl]);
  }

  class CAddrMan {
    const hashes: Hashes
    var nIdCount: int
    var mapInfo: map<int, Info>
    var mapAddr: map<NetAddr, int>
    var vRandom: seq<int>
    var nTried: int
    const vvTried: array2<int>
    var nNew: int
    const vvNew: array2<int>

    ghost predicate Shaped() {
      && vvTried != vvNew
      && vvTried.Length0 == TRIED_BUCKET_COUNT && vvTried.Length1 == BUCKET_SIZE
      && vvNew.Length0 == NEW_BUCKET_COUNT && vvNew.Length1 == BUCKET_SIZE
    }

    ghost function Abs(): AddrMan
      reads this, vvTried, vvNew
    {
      AddrMan(nIdCount, mapInfo, mapAddr, vRandom, nTried, Occupied(vvTried), nNew, Occupied(vvNew))
    }

    constructor (h: Hashes)
      ensures Shaped() && hashes == h && Abs() == Empty && Inv(h, Abs())
    {
      hashes := h;
      nIdCount, nTried, nNew := 0, 0, 0;
      mapInfo, mapAddr, vRandom := map[], map[], [];
      vvTried := new int[TRIED_BUCKET_COUNT, BUCKET_SIZE]((_, _) => -1);
      vvNew := new int[NEW_BUCKET_COUNT, BUCKET_SIZE]((_, _) => -1);
      new;
      assert Occupied(vvTried) == map[] && Occupied(vvNew) == map[];
      O.ReachableStatesSatisfyInv(h, []);
    }

    /** The id of an address, if there is an entry for it. */
    method Find(addr: NetAddr) returns (found: bool, nId: int)
      ensures found <==> addr in mapAddr && mapAddr[addr] in mapInfo
      ensures found ==> nId == mapAddr[addr]
    {
      if addr !in mapAddr {
        return false, 0;
      }
      nId := mapAddr[addr];
      found := nId in mapInfo;
    }

    method Create(addr: Address, addrSource: NetAddr) returns (nId: int)
      modifies this
      ensures Abs() == Created(old(Abs()), addr, addrSource) && nId == old(nIdCount)
    {
      nId := nIdCount;
      nIdCount := nIdCount + 1;
      mapInfo := mapInfo[nId := Info(addr.service, addr.nServices, addr.nTime, 0, addrSource, 0, 0, 0, false, -1)];
      mapAddr := mapAddr[addr.service.ip := nId];
      mapInfo := mapInfo[nId := mapInfo[nId].(nRandomPos := |vRandom|)];
      vRandom := vRandom + [nId];
      nNew := nNew + 1;  // the caller's increment, which follows the call directly
    }

    method SwapRandom(nRndPos1: nat, nRndPos2: nat)
      requires Swappable(Abs(), nRndPos1, nRndPos2)
      modifies this
      ensures Abs() == Swapped(old(Abs()), nRndPos1, nRndPos2)
    {
      if nRndPos1 == nRndPos2 {
        return;
      }
      var nId1, nId2 := vRandom[nRndPos1], vRandom[nRndPos2];
      mapInfo := mapInfo[nId1 := mapInfo[nId1].(nRandomPos := nRndPos2)];
      mapInfo := mapInfo[nId2 := mapInfo[nId2].(nRandomPos := nRndPos1)];
      vRandom := vRandom[nRndPos1 := nId2];
      vRandom := vRandom[nRndPos2 := nId1];
    }

    method Delete(nId: int)
      requires Deletable(Abs(), nId)
      modifies this
      ensures Abs() == Deleted(old(Abs()), nId)
    {
      hide Occupied, Swapped;
      var info := mapInfo[nId];
      SwapKeepsEntry(Abs(), info.nRandomPos, |vRandom| - 1, nId);
      SwapRandom(info.nRandomPos, |vRandom| - 1);
      vRandom := vRandom[..|vRandom| - 1];
      mapAddr := mapAddr - {info.service.ip};
      mapInfo := mapInfo - {nId};
      nNew := nNew - 1;
    }

    /** Its assertion, that an occupant's reference count is positive, follows from the invariant. */
    method ClearNew(nUBucket: nat, nUBucketPos: nat, ghost loose: set<int>)
      requires Shaped() && Core(hashes, Abs()) && Live(Abs(), loose)
      requires nUBucket < NEW_BUCKET_COUNT && nUBucketPos < BUCKET_SIZE
      modifies this, vvNew
      ensures Abs() == O.ClearNew(old(Abs()), (nUBucket, nUBucketPos))
      ensures vvNew[nUBucket, nUBucketPos] == -1
    {
      hide Core;
      hide Live;
      hide Occupied;
      ghost var s, sl := Abs(), (nUBucket, nUBucketPos);
      SlotRead(vvNew, nUBucket, nUBucketPos);
      if vvNew[nUBucket, nUBucketPos] != -1 {
        var nIdDelete := vvNew[nUBucket, nUBucketPos];
        UnrefKeeps(hashes, s, sl, loose);
        ghost var u := Unref(s, sl);
        assert mapInfo[nIdDelete].nRefCount > 0;
        mapInfo := mapInfo[nIdDelete := mapInfo[nIdDelete].(nRefCount := mapInfo[nIdDelete].nRefCount - 1)];
        FreeSlot(vvNew, nUBucket, nUBucketPos);
        assert Abs() == u;
        if mapInfo[nIdDelete].nRefCount == 0 {
          CanDelete(hashes, u, nIdDelete);
          Delete(nIdDelete);
        }
      }
      O.ClearNewKeeps(hashes, s, sl, loose);
      SlotRead(vvNew, nUBucket, nUBucketPos);
    }

    /** The loop of MakeTried: the entry leaves all new buckets, and its references come to 0. */
    method RemoveFromNew(nId: int)
      requires Shaped() && Core(hashes, Abs()) && nId in mapInfo
      modifies this`mapInfo, vvNew
      ensures Abs() == Unlisted(old(Abs()), nId)
    {
      hide Core;
      hide Occupied;
      hide SlotsBelow;
      hide SlotsOf;
      ghost var s := Abs();
      IdsAreNat(hashes, s, nId);
      var service := mapInfo[nId].service;
      var bucket := 0;
      NoneBelowZero(s.vvNew, nId);
      assert s.mapInfo[nId := s.mapInfo[nId].(nRefCount := s.mapInfo[nId].nRefCount)] == s.mapInfo;
      while bucket < NEW_BUCKET_COUNT
        invariant bucket <= NEW_BUCKET_COUNT
        invariant nId in mapInfo && mapInfo == s.mapInfo[nId := s.mapInfo[nId].(nRefCount := mapInfo[nId].nRefCount)]
        invariant Occupied(vvNew) == s.vvNew - SlotsBelow(s.vvNew, nId, bucket)
        invariant mapInfo[nId].nRefCount == |SlotsOf(s.vvNew, nId)| - |SlotsBelow(s.vvNew, nId, bucket)|
      {
        var pos := hashes.Position(service, true, bucket);
        SlotRead(vvNew, bucket, pos);
        SlotsBelowGrows(hashes, s, nId, bucket);
        if vvNew[bucket, pos] == nId {
          FreeSlot(vvNew, bucket, pos);
          mapInfo := mapInfo[nId := mapInfo[nId].(nRefCount := mapInfo[nId].nRefCount - 1)];
        }
        bucket := bucket + 1;
      }
      SlotsBelowTop(hashes, s, nId);
    }

    method MakeTried(nId: int)
      requires Shaped() && Inv(hashes, Abs()) && nId in mapInfo && !mapInfo[nId].fInTried
      modifies this, vvNew, vvTried
      ensures Abs() == O.MadeTried(hashes, old(Abs()), nId) && Inv(hashes, Abs())
    {
      hide Core;
      hide Live;
      hide Occupied;
      hide O.Evicted;
      ghost var s := Abs();
      O.MadeTriedKeeps(hashes, s, nId);
      IdsAreNat(hashes, s, nId);
      UnlistedKeeps(hashes, s, nId, {});
      RemoveFromNew(nId);
      ghost var u := Abs();
      assert {} + {nId} == {nId};
      assert mapInfo[nId].nRefCount == 0;
      var nKBucket := hashes.TriedBucket(mapInfo[nId].service);
      var nKBucketPos := hashes.Position(mapInfo[nId].service, false, nKBucket);
      O.EvictedKeeps(hashes, u, (nKBucket, nKBucketPos), nId);
      EvictTried(nKBucket, nKBucketPos, nId);
      assert O.Spared(u, Abs(), nId);
      SlotRead(vvTried, nKBucket, nKBucketPos);
      assert vvTried[nKBucket, nKBucketPos] == -1;
      SetSlot(vvTried, nKBucket, nKBucketPos, nId);
      nNew := nNew - 1;  // the code's decrement stands right after its first loop
      nTried := nTried + 1;
      mapInfo := mapInfo[nId := mapInfo[nId].(fInTried := true)];
    }

    /** The part of MakeTried that sends the occupant of a tried slot back to the new table. */
    method EvictTried(nKBucket: nat, nKBucketPos: nat, ghost nId: int)
      requires Shaped() && Core(hashes, Abs()) && Live(Abs(), {nId})
      requires nKBucket < TRIED_BUCKET_COUNT && nKBucketPos < BUCKET_SIZE
      modifies this, vvNew, vvTried
      ensures Abs() == O.Evicted(hashes, old(Abs()), (nKBucket, nKBucketPos))
    {
      hide Core;
      hide Live;
      hide Occupied;
      hide O.ClearNew;
      ghost var s, ts := Abs(), (nKBucket, nKBucketPos);
      SlotRead(vvTried, nKBucket, nKBucketPos);
      if vvTried[nKBucket, nKBucketPos] != -1 {
        var nIdEvict := vvTried[nKBucket, nKBucketPos];
        TriedSlotHolder(hashes, s, ts);
        assert nIdEvict in mapInfo;
        FromTriedKeeps(hashes, s, nIdEvict, {nId});
        mapInfo := mapInfo[nIdEvict := mapInfo[nIdEvict].(fInTried := false)];
        FreeSlot(vvTried, nKBucket, nKBucketPos);
        nTried := nTried - 1;
        nNew := nNew + 1;  // the code's increment stands after the entry's new slot is set
        ghost var f := Abs();
        assert f == FromTried(hashes, s, nIdEvict);
        var infoOld := mapInfo[nIdEvict];
        var nUBucket := hashes.NewBucket(infoOld.service, infoOld.source);
        var nUBucketPos := hashes.Position(infoOld.service, true, nUBucket);
        ghost var us: Slot := (nUBucket, nUBucketPos);
        O.NotListed(hashes, f, nIdEvict, us);
        O.ClearNewKeeps(hashes, f, us, {nId} + {nIdEvict});
        ClearNew(nUBucket, nUBucketPos, {nId} + {nIdEvict});
        assert O.Spared(f, Abs(), nIdEvict);
        assert vvNew[nUBucket, nUBucketPos] == -1;
        mapInfo := mapInfo[nIdEvict := mapInfo[nIdEvict].(nRefCount := 1)];
        SetSlot(vvNew, nUBucket, nUBucketPos, nIdEvict);
      }
    }

    method Good_(addr: Service, nTime: int, nRnd: nat)
      requires Shaped() && Inv(hashes, Abs())
      modifies this, vvNew, vvTried
      ensures Abs() == O.Good(hashes, old(Abs()), addr, nTime) && Inv(hashes, Abs())
    {
      hide Core;
      hide Live;
      hide Occupied;
      hide O.MadeTried;
      ghost var s := Abs();
      O.GoodKeeps(hashes, s, addr, nTime);
      var found, nId := Find(addr.ip);
      if !found { return; }
      if mapInfo[nId].service != addr { return; }
      ghost var info := mapInfo[nId].(nLastSuccess := nTime, nLastTry := nTime, nAttempts := 0);
      TouchKeeps(hashes, s, nId, info, {});
      mapInfo := mapInfo[nId := mapInfo[nId].(nLastSuccess := nTime, nLastTry := nTime, nAttempts := 0)];
      ghost var t := Abs();
      assert t == SetInfo(s, nId, info);
      if mapInfo[nId].fInTried { return; }
      O.SomeBucketFound(hashes, t, nId);
      IdsAreNat(hashes, t, nId);
      ghost var b: nat :| b < NEW_BUCKET_COUNT && O.InBucket(hashes, t, nId, b);
      var nUBucket := FindBucket(nId, nRnd, t);
      assert nUBucket != -1;
      MakeTried(nId);
    }

    /** Starting at a random bucket, some bucket that holds the entry, or -1 if there is none. */
    method FindBucket(nId: int, nRnd: nat, ghost t: AddrMan) returns (nUBucket: int)
      requires Shaped() && nId in mapInfo && nId != -1 && t == Abs()
      ensures nUBucket == -1 ==> forall b: nat :: b < NEW_BUCKET_COUNT ==> !O.InBucket(hashes, t, nId, b)
      ensures nUBucket != -1 ==> 0 <= nUBucket < NEW_BUCKET_COUNT && O.InBucket(hashes, t, nId, nUBucket)
    {
      hide Occupied;
      var start := nRnd % NEW_BUCKET_COUNT;
      for n := 0 to NEW_BUCKET_COUNT
        invariant forall b: nat :: b < NEW_BUCKET_COUNT && (start <= b < start + n || b + NEW_BUCKET_COUNT < start + n) ==>
          !O.InBucket(hashes, t, nId, b)
      {
        var nB := (n + nRnd) % NEW_BUCKET_COUNT;
        assert nB == if start + n < NEW_BUCKET_COUNT then start + n else start + n - NEW_BUCKET_COUNT;
        var nBpos := hashes.Position(mapInfo[nId].service, true, nB);
        SlotRead(vvNew, nB, nBpos);
        if vvNew[nB, nBpos] == nId {
          return nB;
        }
      }
      nUBucket := -1;
    }

    method Add_(addr: Address, source: NetAddr, nTimePenalty: int, isRoutable: bool, now: int, roll: nat) returns (fNew: bool)
      requires Shaped() && Inv(hashes, Abs())
      modifies this, vvNew
      ensures (Abs(), fNew) == O.Add(hashes, old(Abs()), addr, source, nTimePenalty, isRoutable, now, roll)
      ensures Inv(hashes, Abs())
    {
      hide Core;
      hide Live;
      hide Occupied;
      hide O.Filed;
      ghost var s := Abs();
      O.AddKeeps(hashes, s, addr, source, nTimePenalty, isRoutable, now, roll);
      if !isRoutable { return false; }
      var found, nId := Find(addr.service.ip);
      if found {
        fNew := false;
        var again := Refresh(nId, addr, nTimePenalty, now, roll);
        if !again { return; }
        ghost var t := Abs();
        TouchKeeps(hashes, s, nId, t.mapInfo[nId], {});
        LiveIsLooser(t, nId);
        AtMostEight(t, nId);
      } else {
        fNew := true;
        O.AddressHasInfo(hashes, s, addr.service.ip);
        ghost var a := addr.(nTime := Max(0, addr.nTime - nTimePenalty));
        CreatedKeeps(hashes, s, a, source, {});
        assert {} + {s.nIdCount} == {s.nIdCount};
        nId := Create(addr, source);
        mapInfo := mapInfo[nId := mapInfo[nId].(nTime := Max(0, mapInfo[nId].nTime - nTimePenalty))];
        assert Abs() == Created(s, a, source);
      }
      File(nId, source, now);
    }

    lemma AtMostEight(s: AddrMan, id: int)
      requires Live(s, {}) && id in s.mapInfo && !s.mapInfo[id].fInTried
      ensures s.mapInfo[id].nRefCount <= NEW_BUCKETS_PER_ADDRESS
    {
      assert LiveId(s.mapInfo[id], id in {});
    }

    /** Add_ on a known address: update its statistics, and decide whether it gets another bucket. */
    method Refresh(nId: int, addr: Address, nTimePenalty: int, now: int, roll: nat) returns (again: bool)
      requires nId in mapInfo
      modifies this`mapInfo
      ensures Abs() == SetInfo(old(Abs()), nId, O.Refreshed(old(mapInfo)[nId], addr, nTimePenalty, now))
      ensures again <==> O.TryAgain(O.Refreshed(old(mapInfo)[nId], addr, nTimePenalty, now), addr, roll)
    {
      hide Occupied;
      var info := mapInfo[nId];
      var fCurrentlyOnline := now - addr.nTime < 24 * 60 * 60;
      var nUpdateInterval := if fCurrentlyOnline then 60 * 60 else 24 * 60 * 60;
      if addr.nTime != 0 && (info.nTime == 0 || info.nTime < addr.nTime - nUpdateInterval - nTimePenalty) {
        info := info.(nTime := Max(0, addr.nTime - nTimePenalty));
      }
      info := info.(nServices := info.nServices + addr.nServices);
      mapInfo := mapInfo[nId := info];
      if addr.nTime == 0 || (info.nTime != 0 && addr.nTime <= info.nTime) { return false; }
      if info.fInTried { return false; }
      if info.nRefCount == NEW_BUCKETS_PER_ADDRESS { return false; }
      var nFactor := 1;
      var n := 0;
      while n < info.nRefCount
        invariant 0 <= n && (n <= info.nRefCount || n == 0)
        invariant nFactor == O.TwoTo(n)
      {
        nFactor := nFactor * 2;
        n := n + 1;
      }
      again := !(nFactor > 1 && roll % nFactor != 0);
    }

    /** The last part of Add_: into the bucket, if the slot is free or its occupant may go. */
    method File(nId: int, source: NetAddr, now: int)
      requires Shaped() && Core(hashes, Abs()) && Live(Abs(), {nId})
      requires nId in mapInfo && !mapInfo[nId].fInTried
      modifies this, vvNew
      ensures Abs() == O.Filed(hashes, old(Abs()), nId, source, now)
    {
      hide Core;
      hide Live;
      hide Occupied;
      hide O.ClearNew;
      ghost var s := Abs();
      IdsAreNat(hashes, s, nId);
      var nUBucket := hashes.NewBucket(mapInfo[nId].service, source);
      var nUBucketPos := hashes.Position(mapInfo[nId].service, true, nUBucket);
      ghost var us: Slot := (nUBucket, nUBucketPos);
      assert us == O.HomeSlot(hashes, mapInfo[nId], source);
      SlotRead(vvNew, nUBucket, nUBucketPos);
      if vvNew[nUBucket, nUBucketPos] != nId {
        var fInsert := vvNew[nUBucket, nUBucketPos] == -1;
        if !fInsert {
          NewSlotHolder(hashes, s, us);
          var infoExisting := mapInfo[vvNew[nUBucket, nUBucketPos]];
          if infoExisting.IsTerrible(now) || (infoExisting.nRefCount > 1 && mapInfo[nId].nRefCount == 0) {
            fInsert := true;
          }
        }
        if fInsert {
          O.ClearNewKeeps(hashes, s, us, {nId});
          ClearNew(nUBucket, nUBucketPos, {nId});
          assert O.Spared(s, Abs(), nId);
          mapInfo := mapInfo[nId := mapInfo[nId].(nRefCount := mapInfo[nId].nRefCount + 1)];
          SetSlot(vvNew, nUBucket, nUBucketPos, nId);
        } else if mapInfo[nId].nRefCount == 0 {
          CanDelete(hashes, s, nId);
          Delete(nId);
        }
      }
    }

    method Attempt_(addr: Service, nTime: int)
      requires Shaped() && Inv(hashes, Abs())
      modifies this
      ensures Abs() == O.Attempt(old(Abs()), addr, nTime) && Inv(hashes, Abs())
    {
      hide Core;
      hide Live;
      hide Occupied;
      O.AttemptKeeps(hashes, Abs(), addr, nTime);
      var found, nId := Find(addr.ip);
      if !found { return; }
      if mapInfo[nId].service != addr { return; }
      mapInfo := mapInfo[nId := mapInfo[nId].(nLastTry := nTime)];
      mapInfo := mapInfo[nId := mapInfo[nId].(nAttempts := mapInfo[nId].nAttempts + 1)];
    }

    method Connected_(addr: Service, nTime: int)
      requires Shaped() && Inv(hashes, Abs())
      modifies this
      ensures Abs() == O.Connected(old(Abs()), addr, nTime) && Inv(hashes, Abs())
    {
      hide Core;
      hide Live;
      hide Occupied;
      O.ConnectedKeeps(hashes, Abs(), addr, nTime);
      var found, nId := Find(addr.ip);
      if !found { return; }
      if mapInfo[nId].service != addr { return; }
      if nTime - mapInfo[nId].nTime > 20 * 60 {
        mapInfo := mapInfo[nId := mapInfo[nId].(nTime := nTime)];
      }
    }

    /** All that are not terrible, if they are few. */
    lemma HandedOut(s: AddrMan, now: int, rnd: nat -> nat, vAddr: seq<Info>, ids: seq<int>)
      requires Inv(hashes, s) && (Abs(), ids) == O.Shuffled(s, 0, O.AddrLimit(s), now, rnd, [])
      requires |vAddr| == |ids| && forall k :: 0 <= k < |ids| ==> ids[k] in mapInfo && vAddr[k] == mapInfo[ids[k]]
      ensures G.Rearranged(s, Abs())
      ensures |vAddr| < O.AddrLimit(s) ==> forall id :: id in mapInfo && !mapInfo[id].IsTerrible(now) ==> mapInfo[id] in vAddr
    {
      hide Inv, G.Rearranged, O.Shuffled, Info.IsTerrible;
      G.HandsOutTheGood(hashes, s, now, rnd);
      G.RearrangedAlike(s, Abs(), now);
      G.RearrangedKeys(s, Abs());
      if |vAddr| < O.AddrLimit(s) {
        forall id | id in mapInfo && !mapInfo[id].IsTerrible(now) ensures mapInfo[id] in vAddr {
          var k :| 0 <= k < |ids| && ids[k] == id;
          assert vAddr[k] == mapInfo[id];
        }
      }
    }

    /** Hands out entries from random places, none twice, none terrible, and at most 23% or 2500. */
    method GetAddr_(now: int, rnd: nat -> nat) returns (vAddr: seq<Info>, ghost ids: seq<int>)
      requires Shaped() && Inv(hashes, Abs())
      modifies this
      ensures (Abs(), ids) == O.Shuffled(old(Abs()), 0, O.AddrLimit(old(Abs())), now, rnd, []) && Inv(hashes, Abs())
      ensures |vAddr| <= O.AddrLimit(old(Abs()))
      ensures |vAddr| == |ids| && forall k :: 0 <= k < |ids| ==> ids[k] in mapInfo && vAddr[k] == mapInfo[ids[k]] && !vAddr[k].IsTerrible(now)
      ensures forall j, k :: 0 <= j < k < |ids| ==> ids[j] != ids[k]
      ensures G.Rearranged(old(Abs()), Abs())
      ensures |vAddr| < O.AddrLimit(old(Abs())) ==> forall id :: id in mapInfo && !mapInfo[id].IsTerrible(now) ==> mapInfo[id] in vAddr
    {
      hide Inv, Swapped, Swappable, O.Handed, O.ShuffleStep, G.Rearranged, G.Outcome, Info.IsTerrible;
      ghost var s := Abs();
      O.NothingHanded(s);
      O.ShuffledKeeps(hashes, s, 0, O.AddrLimit(s), now, rnd, []);
      G.NothingYet(s, now);
      var nNodes := 23 * |vRandom| / 100;
      if nNodes > 2500 { nNodes := 2500; }
      vAddr, ids := [], [];
      var n := 0;
      while n < |vRandom| && |vAddr| < nNodes
        invariant n <= |vRandom| && |vAddr| == |ids|
        invariant Inv(hashes, Abs()) && O.Handed(Abs(), n, ids) && G.Outcome(Abs(), n, now, ids)
        invariant forall k :: 0 <= k < |ids| ==> ids[k] in mapInfo && vAddr[k] == mapInfo[ids[k]]
        invariant O.Shuffled(s, 0, nNodes, now, rnd, []) == O.Shuffled(Abs(), n, nNodes, now, rnd, ids)
        invariant forall k :: 0 <= k < |ids| ==> !vAddr[k].IsTerrible(now)
        decreases |vRandom| - n
      {
        ghost var t := Abs();
        var nRndPos := O.PickFrom(rnd, n, |vRandom|);
        O.ShuffleStepIs(hashes, t, n, now, rnd, ids);
        O.ShuffleStepKeeps(hashes, t, n, now, rnd, ids);
        G.StepOutcome(hashes, t, n, now, rnd, ids);
        SwapRandom(n, nRndPos);
        var id := vRandom[n];
        var ai := mapInfo[id];
        ghost var before := ids;
        if !ai.IsTerrible(now) {
          vAddr := vAddr + [ai];
          ids := ids + [id];
        }
        assert O.ShuffleStep(t, n, now, rnd, before) == (Abs(), ids);
        n := n + 1;
      }
      O.HandedMeans(Abs(), |vRandom|, ids);
      HandedOut(s, now, rnd, vAddr, ids);
    }
  }
}
