/**
  The address manager's operations as transitions of its tables, and the theorem that every state
  reached from an empty manager satisfies the invariant.
  */
module AddrManOps {
  import opened Arith
  import opened AddrManState

  // ----- ClearNew -----

  /** ClearNew: drop one reference, and the entry with it if that was the last. */
  function ClearNew(s: AddrMan, sl: Slot): AddrMan {
    if sl in s.vvNew && s.vvNew[sl] in s.mapInfo then
      var id, u := s.vvNew[sl], Unref(s, sl);
      if u.mapInfo[id].nRefCount == 0 && Deletable(u, id) then Deleted(u, id) else u
    else s
  }

  /** An entry survives up to its place in vRandom. */
  ghost predicate Spared(s: AddrMan, s': AddrMan, id: int) {
    id in s.mapInfo && id in s'.mapInfo && s'.mapInfo[id] == s.mapInfo[id].(nRandomPos := s'.mapInfo[id].nRandomPos)
  }

  /** The last reference goes, and the entry with it. */
  lemma ClearedLast(h: Hashes, s: AddrMan, sl: Slot, loose: set<int>)
    requires Core(h, s) && Live(s, loose) && sl in s.vvNew && s.vvNew[sl] in s.mapInfo && Deletable(Unref(s, sl), s.vvNew[sl])
    ensures var d := Deleted(Unref(s, sl), s.vvNew[sl]);
      && Core(h, d) && Live(d, loose) && d.vvNew == s.vvNew - {sl} && d.vvTried == s.vvTried
      && forall i :: i in s.mapInfo && i != s.vvNew[sl] ==> Spared(s, d, i)
  {
    hide Core;
    var id, u := s.vvNew[sl], Unref(s, sl);
    UnrefKeeps(h, s, sl, loose);
    DeletedKeeps(h, u, id, loose + {id});
    var d := Deleted(u, id);
    DeletedKeys(u, id);
    forall i | i in d.mapInfo ensures LiveId(d.mapInfo[i], i in loose) { assert LiveId(d.mapInfo[i], i in loose + {id}); }
    forall i | i in s.mapInfo && i != id ensures Spared(s, d, i) { DeletedSpares(u, id, i); }
  }

  /** One reference of several goes. */
  lemma ClearedOne(h: Hashes, s: AddrMan, sl: Slot, loose: set<int>)
    requires Core(h, s) && Live(s, loose) && sl in s.vvNew && s.vvNew[sl] in s.mapInfo && s.mapInfo[s.vvNew[sl]].nRefCount != 1
    ensures Core(h, Unref(s, sl)) && Live(Unref(s, sl), loose)
  {
    hide Core;
    var id, u := s.vvNew[sl], Unref(s, sl);
    UnrefKeeps(h, s, sl, loose);
    forall i | i in u.mapInfo ensures LiveId(u.mapInfo[i], i in loose) { assert LiveId(u.mapInfo[i], i in loose + {id}); }
  }

  lemma ClearNewKeeps(h: Hashes, s: AddrMan, sl: Slot, loose: set<int>)
    requires Core(h, s) && Live(s, loose)
    ensures Core(h, ClearNew(s, sl)) && Live(ClearNew(s, sl), loose)
    ensures ClearNew(s, sl).vvNew == s.vvNew - {sl} && ClearNew(s, sl).vvTried == s.vvTried
    ensures forall id :: id in s.mapInfo && (sl in s.vvNew ==> s.vvNew[sl] != id) ==> Spared(s, ClearNew(s, sl), id)
  {
    hide Core, Live, Deleted, Deletable;
    if sl in s.vvNew {
      UnrefKeeps(h, s, sl, loose);
      var id, u := s.vvNew[sl], Unref(s, sl);
      if u.mapInfo[id].nRefCount == 0 {
        CanDelete(h, u, id);
        ClearedLast(h, s, sl, loose);
      } else {
        ClearedOne(h, s, sl, loose);
      }
    } else {
      assert s.vvNew - {sl} == s.vvNew;
    }
  }

  // ----- MakeTried -----

  /** Where an entry goes in the new table by its own source. */
  function HomeSlot(h: Hashes, info: Info, source: NetAddr): Slot {
    h.NewSlot(info.service, h.NewBucket(info.service, source))
  }

  /** The occupant of a tried slot goes back to the new table, at the expense of what is there. */
  function Evicted(h: Hashes, s: AddrMan, ts: Slot): AddrMan {
    if ts in s.vvTried && s.vvTried[ts] in s.mapInfo then
      var prev := s.vvTried[ts];
      var f := FromTried(h, s, prev);
      var us := HomeSlot(h, f.mapInfo[prev], f.mapInfo[prev].source);
      var c := ClearNew(f, us);
      if prev in c.mapInfo then Ref(c, us, prev) else c
    else s
  }

  ghost function MadeTried(h: Hashes, s: AddrMan, id: int): AddrMan
    requires id in s.mapInfo
  {
    var e := Evicted(h, Unlisted(s, id), h.TriedSlot(s.mapInfo[id].service));
    if id in e.mapInfo then ToTried(h, e, id) else e
  }

  lemma EvictedKeeps(h: Hashes, s: AddrMan, ts: Slot, id: int)
    requires Core(h, s) && Live(s, {id}) && id in s.mapInfo && !s.mapInfo[id].fInTried && s.mapInfo[id].nRefCount == 0
    ensures Core(h, Evicted(h, s, ts)) && Live(Evicted(h, s, ts), {id})
    ensures ts !in Evicted(h, s, ts).vvTried
    ensures Spared(s, Evicted(h, s, ts), id)
  {
    if ts in s.vvTried {
      assert TriedOk(h, s, ts);
      var prev := s.vvTried[ts];
      FromTriedKeeps(h, s, prev, {id});
      var f := FromTried(h, s, prev);
      var us := HomeSlot(h, f.mapInfo[prev], f.mapInfo[prev].source);
      NotListed(h, f, id, us);
      NotListed(h, f, prev, us);
      ClearNewKeeps(h, f, us, {id} + {prev});
      assert Spared(f, ClearNew(f, us), prev) && Spared(f, ClearNew(f, us), id);
      RefKeeps(h, ClearNew(f, us), us, prev, {id});
    }
  }

  /** An entry without references is in no slot of the new table. */
  lemma NotListed(h: Hashes, s: AddrMan, id: int, sl: Slot)
    requires Core(h, s) && id in s.mapInfo && s.mapInfo[id].nRefCount == 0
    ensures sl in s.vvNew ==> s.vvNew[sl] != id
  {
    assert RefOk(s, id);
    assert sl !in SlotsOf(s.vvNew, id);
  }

  lemma MadeTriedKeeps(h: Hashes, s: AddrMan, id: int)
    requires Inv(h, s) && id in s.mapInfo && !s.mapInfo[id].fInTried
    ensures Inv(h, MadeTried(h, s, id))
    ensures id in MadeTried(h, s, id).mapInfo && MadeTried(h, s, id).mapInfo[id].fInTried
  {
    UnlistedKeeps(h, s, id, {});
    var u, ts := Unlisted(s, id), h.TriedSlot(s.mapInfo[id].service);
    assert {} + {id} == {id};
    EvictedKeeps(h, u, ts, id);
    ToTriedKeeps(h, Evicted(h, u, ts), id, {});
  }

  // ----- Operations -----

  /** The entry that an operation on a service concerns: the same port as well as the same address. */
  predicate Knows(s: AddrMan, a: Service) {
    a.ip in s.mapAddr && s.mapAddr[a.ip] in s.mapInfo && s.mapInfo[s.mapAddr[a.ip]].service == a
  }

  ghost function Good(h: Hashes, s: AddrMan, a: Service, nTime: int): AddrMan {
    if !Knows(s, a) then s else
      var id := s.mapAddr[a.ip];
      var t := SetInfo(s, id, s.mapInfo[id].(nLastSuccess := nTime, nLastTry := nTime, nAttempts := 0));
      if t.mapInfo[id].fInTried then t else MadeTried(h, t, id)
  }

  function Attempt(s: AddrMan, a: Service, nTime: int): AddrMan {
    if !Knows(s, a) then s else
      var id := s.mapAddr[a.ip];
      SetInfo(s, id, s.mapInfo[id].(nLastTry := nTime, nAttempts := s.mapInfo[id].nAttempts + 1))
  }

  function Connected(s: AddrMan, a: Service, nTime: int): AddrMan {
    if !Knows(s, a) then s else
      var id := s.mapAddr[a.ip];
      if nTime - s.mapInfo[id].nTime > 20 * 60 then SetInfo(s, id, s.mapInfo[id].(nTime := nTime)) else s
  }

  /** What a repeated announcement changes in an entry. */
  function Refreshed(info: Info, addr: Address, nTimePenalty: int, now: int): Info {
    var nUpdateInterval := if now - addr.nTime < 24 * 60 * 60 then 60 * 60 else 24 * 60 * 60;
    var stale := addr.nTime != 0 && (info.nTime == 0 || info.nTime < addr.nTime - nUpdateInterval - nTimePenalty);
    info.(nTime := if stale then Max(0, addr.nTime - nTimePenalty) else info.nTime, nServices := info.nServices + addr.nServices)
  }

  function TwoTo(n: int): int
    decreases n
  {
    if n <= 0 then 1 else 2 * TwoTo(n - 1)
  }

  /** Whether a known, just refreshed entry gets one more chance at a bucket. */
  predicate TryAgain(info: Info, addr: Address, roll: nat) {
    && !(addr.nTime == 0 || (info.nTime != 0 && addr.nTime <= info.nTime))
    && !info.fInTried
    && info.nRefCount != NEW_BUCKETS_PER_ADDRESS
    && !(TwoTo(info.nRefCount) > 1 && roll % TwoTo(info.nRefCount) != 0)
  }

  /** The last part of Add_: into the bucket, if the slot is free or its occupant may go. */
  function Filed(h: Hashes, s: AddrMan, id: int, source: NetAddr, now: int): AddrMan
    requires id in s.mapInfo
  {
    var us := HomeSlot(h, s.mapInfo[id], source);
    if us in s.vvNew && s.vvNew[us] == id then s
    else if us !in s.vvNew || Yields(s, us, id, now) then
      var c := ClearNew(s, us);
      if id in c.mapInfo then Ref(c, us, id) else c
    else if s.mapInfo[id].nRefCount == 0 && Deletable(s, id) then Deleted(s, id)
    else s
  }

  predicate Yields(s: AddrMan, us: Slot, id: int, now: int)
    requires id in s.mapInfo && us in s.vvNew
  {
    var other := s.vvNew[us];
    other in s.mapInfo && (s.mapInfo[other].IsTerrible(now) || (s.mapInfo[other].nRefCount > 1 && s.mapInfo[id].nRefCount == 0))
  }

  function Add(h: Hashes, s: AddrMan, addr: Address, source: NetAddr, nTimePenalty: int, isRoutable: bool, now: int, roll: nat)
    : (AddrMan, bool)
  {
    var ip := addr.service.ip;
    if !isRoutable then (s, false)
    else if ip in s.mapAddr && s.mapAddr[ip] in s.mapInfo then
      (AddKnown(h, s, s.mapAddr[ip], addr, source, nTimePenalty, now, roll), false)
    else
      (Filed(h, Announced(s, addr, source, nTimePenalty), s.nIdCount, source, now), true)
  }

  function AddKnown(h: Hashes, s: AddrMan, id: int, addr: Address, source: NetAddr, nTimePenalty: int, now: int, roll: nat): AddrMan
    requires id in s.mapInfo
  {
    var t := SetInfo(s, id, Refreshed(s.mapInfo[id], addr, nTimePenalty, now));
    if TryAgain(t.mapInfo[id], addr, roll) then Filed(h, t, id, source, now) else t
  }

  /** A new entry, with the penalty taken off its time. */
  function Announced(s: AddrMan, addr: Address, source: NetAddr, nTimePenalty: int): AddrMan {
    Created(s, addr.(nTime := Max(0, addr.nTime - nTimePenalty)), source)
  }

  /** GetRandInt(size - n) + n. */
  function PickFrom(rnd: nat -> nat, n: nat, size: nat): (j: nat)
    requires n < size
    ensures n <= j < size
  {
    n + rnd(n) % (size - n)
  }

  /** GetAddr_: the random swaps at the front of vRandom, and the ids whose entries are handed out. */
  function Shuffled(s: AddrMan, n: nat, nNodes: int, now: int, rnd: nat -> nat, got: seq<int>): (AddrMan, seq<int>)
    decreases |s.vRandom| - n
  {
    if n >= |s.vRandom| || |got| >= nNodes then (s, got)
    else
      var (t, got') := ShuffleStep(s, n, now, rnd, got);
      Shuffled(t, n + 1, nNodes, now, rnd, got')
  }

  function AddrLimit(s: AddrMan): int {
    var nNodes := 23 * |s.vRandom| / 100;
    if nNodes > 2500 then 2500 else nNodes
  }

  // ----- Each keeps the invariant -----

  lemma FiledKeeps(h: Hashes, s: AddrMan, id: int, source: NetAddr, now: int)
    requires Core(h, s) && Live(s, {id}) && id in s.mapInfo && !s.mapInfo[id].fInTried
    requires s.mapInfo[id].nRefCount < NEW_BUCKETS_PER_ADDRESS
    ensures Inv(h, Filed(h, s, id, source, now))
  {
    var us, r := HomeSlot(h, s.mapInfo[id], source), Filed(h, s, id, source, now);
    assert RefOk(s, id);
    if us in s.vvNew && s.vvNew[us] == id {
      assert us in SlotsOf(s.vvNew, id);
      forall i | i in s.mapInfo ensures LiveId(s.mapInfo[i], i in {}) { assert LiveId(s.mapInfo[i], i in {id}); }
    } else if us !in s.vvNew || Yields(s, us, id, now) {
      ClearNewKeeps(h, s, us, {id});
      assert Spared(s, ClearNew(s, us), id);
      assert {} + {id} == {id};
      RefKeeps(h, ClearNew(s, us), us, id, {});
    } else if s.mapInfo[id].nRefCount == 0 {
      CanDelete(h, s, id);
      DeletedKeeps(h, s, id, {id});
      forall i | i in r.mapInfo ensures LiveId(r.mapInfo[i], i in {}) { assert LiveId(r.mapInfo[i], i in {id}); }
    } else {
      forall i | i in s.mapInfo ensures LiveId(s.mapInfo[i], i in {}) { assert LiveId(s.mapInfo[i], i in {id}); }
    }
  }

  lemma AddKnownKeeps(h: Hashes, s: AddrMan, id: int, addr: Address, source: NetAddr, nTimePenalty: int, now: int, roll: nat)
    requires Inv(h, s) && id in s.mapInfo
    ensures Inv(h, AddKnown(h, s, id, addr, source, nTimePenalty, now, roll))
  {
    var info := Refreshed(s.mapInfo[id], addr, nTimePenalty, now);
    TouchKeeps(h, s, id, info, {});
    if TryAgain(info, addr, roll) {
      var t := SetInfo(s, id, info);
      assert LiveId(t.mapInfo[id], id in {});
      forall i | i in t.mapInfo ensures LiveId(t.mapInfo[i], i in {id}) { assert LiveId(t.mapInfo[i], i in {}); }
      FiledKeeps(h, t, id, source, now);
    }
  }

  lemma AddUnknownKeeps(h: Hashes, s: AddrMan, addr: Address, source: NetAddr, now: int)
    requires Inv(h, s) && addr.service.ip !in s.mapAddr
    ensures Inv(h, Filed(h, Created(s, addr, source), s.nIdCount, source, now))
  {
    CreatedKeeps(h, s, addr, source, {});
    assert {} + {s.nIdCount} == {s.nIdCount};
    FiledKeeps(h, Created(s, addr, source), s.nIdCount, source, now);
  }

  lemma AddKeeps(h: Hashes, s: AddrMan, addr: Address, source: NetAddr, nTimePenalty: int, isRoutable: bool, now: int, roll: nat)
    requires Inv(h, s)
    ensures Inv(h, Add(h, s, addr, source, nTimePenalty, isRoutable, now, roll).0)
  {
    hide Filed;
    hide AddKnown;
    var ip := addr.service.ip;
    if !isRoutable {
    } else if ip in s.mapAddr && s.mapAddr[ip] in s.mapInfo {
      AddKnownKeeps(h, s, s.mapAddr[ip], addr, source, nTimePenalty, now, roll);
    } else {
      AddressHasInfo(h, s, ip);
      AddUnknownKeeps(h, s, addr.(nTime := Max(0, addr.nTime - nTimePenalty)), source, now);
    }
  }

  lemma AddressHasInfo(h: Hashes, s: AddrMan, ip: NetAddr)
    requires Core(h, s)
    ensures ip in s.mapAddr ==> s.mapAddr[ip] in s.mapInfo
  {
    if ip in s.mapAddr { assert AddrOk(s, ip); }
  }

  lemma GoodKeeps(h: Hashes, s: AddrMan, a: Service, nTime: int)
    requires Inv(h, s)
    ensures Inv(h, Good(h, s, a, nTime))
    ensures Knows(s, a) ==> s.mapAddr[a.ip] in Good(h, s, a, nTime).mapInfo && Good(h, s, a, nTime).mapInfo[s.mapAddr[a.ip]].fInTried
  {
    if Knows(s, a) {
      var id := s.mapAddr[a.ip];
      var info := s.mapInfo[id].(nLastSuccess := nTime, nLastTry := nTime, nAttempts := 0);
      TouchKeeps(h, s, id, info, {});
      if !info.fInTried { MadeTriedKeeps(h, SetInfo(s, id, info), id); }
    }
  }

  /** Good_ always finds a bucket that holds the entry: its bail-out branch is never taken. */
  lemma SomeBucketFound(h: Hashes, s: AddrMan, id: int)
    requires Inv(h, s) && id in s.mapInfo && !s.mapInfo[id].fInTried
    ensures exists b: nat :: b < NEW_BUCKET_COUNT && InBucket(h, s, id, b)
  {
    assert RefOk(s, id) && LiveId(s.mapInfo[id], id in {});
    var sl :| sl in SlotsOf(s.vvNew, id);
    assert NewOk(h, s, sl);
    assert InBucket(h, s, id, sl.0);
  }

  /** The entry occupies its slot in a bucket of the new table. */
  predicate InBucket(h: Hashes, s: AddrMan, id: int, bucket: nat)
    requires id in s.mapInfo
  {
    var sl := h.NewSlot(s.mapInfo[id].service, bucket);
    sl in s.vvNew && s.vvNew[sl] == id
  }

  /** The ids handed out so far: distinct entries whose place is before n. */
  ghost predicate Handed(s: AddrMan, n: nat, ids: seq<int>) {
    && (forall k :: 0 <= k < |ids| ==> ids[k] in s.mapInfo && s.mapInfo[ids[k]].nRandomPos < n)
    && (forall j, k :: 0 <= j < k < |ids| ==> ids[j] != ids[k])
  }

  lemma NothingHanded(s: AddrMan)
    ensures Handed(s, 0, [])
  {}

  lemma HandedMeans(s: AddrMan, n: nat, ids: seq<int>)
    requires Handed(s, n, ids)
    ensures forall k :: 0 <= k < |ids| ==> ids[k] in s.mapInfo
    ensures forall j, k :: 0 <= j < k < |ids| ==> ids[j] != ids[k]
  {}

  lemma PlaceHolds(h: Hashes, s: AddrMan, i: nat)
    requires Core(h, s) && i < |s.vRandom|
    ensures s.vRandom[i] in s.mapInfo && s.mapInfo[s.vRandom[i]].nRandomPos == i
  {
    assert PosOk(s, i);
  }

  lemma SwappedFirst(s: AddrMan, i: nat, j: nat)
    requires Swappable(s, i, j)
    ensures |Swapped(s, i, j).vRandom| == |s.vRandom| && Swapped(s, i, j).vRandom[i] == s.vRandom[j]
  {}

  lemma HandedGrows(h: Hashes, s: AddrMan, n: nat, j: nat, ids: seq<int>, got: bool)
    requires Core(h, s) && n <= j < |s.vRandom| && Handed(s, n, ids)
    ensures Swappable(s, n, j)
    ensures var t := Swapped(s, n, j); t.vRandom[n] in t.mapInfo && Handed(t, n + 1, if got then ids + [t.vRandom[n]] else ids)
  {
    hide Core, Swapped;
    PlaceHolds(h, s, n);
    PlaceHolds(h, s, j);
    SwappedAt(s, n, j);
    SwappedFirst(s, n, j);
    var t := Swapped(s, n, j);
    forall k | 0 <= k < |ids| ensures t.mapInfo[ids[k]].nRandomPos < n && ids[k] != t.vRandom[n] {
      assert ids[k] in s.mapInfo;
    }
  }

  /** One round of the loop. */
  function ShuffleStep(s: AddrMan, n: nat, now: int, rnd: nat -> nat, got: seq<int>): (r: (AddrMan, seq<int>))
    requires n < |s.vRandom|
    ensures |r.0.vRandom| == |s.vRandom|
  {
    var j := PickFrom(rnd, n, |s.vRandom|);
    var t := if Swappable(s, n, j) then Swapped(s, n, j) else s;
    var id := t.vRandom[n];
    (t, if id in t.mapInfo && !t.mapInfo[id].IsTerrible(now) then got + [id] else got)
  }

  /** One round of the shuffle: the entry swapped into place n is known, and is handed out unless terrible. */
  lemma ShuffleStepIs(h: Hashes, s: AddrMan, n: nat, now: int, rnd: nat -> nat, got: seq<int>)
    requires Inv(h, s) && n < |s.vRandom|
    ensures var j := PickFrom(rnd, n, |s.vRandom|);
      Swappable(s, n, j) && |Swapped(s, n, j).vRandom| == |s.vRandom|
    ensures var t := Swapped(s, n, PickFrom(rnd, n, |s.vRandom|)); var id := t.vRandom[n];
      && id in t.mapInfo
      && ShuffleStep(s, n, now, rnd, got) == (t, if t.mapInfo[id].IsTerrible(now) then got else got + [id])
  {
    var j := PickFrom(rnd, n, |s.vRandom|);
    CanSwap(h, s, n, j);
    SwappedKeeps(h, s, n, j, {});
    CanSwap(h, Swapped(s, n, j), n, n);
  }

  lemma ShuffleStepKeeps(h: Hashes, s: AddrMan, n: nat, now: int, rnd: nat -> nat, got: seq<int>)
    requires Inv(h, s) && n < |s.vRandom| && Handed(s, n, got)
    ensures var (t, got') := ShuffleStep(s, n, now, rnd, got);
      Inv(h, t) && Handed(t, n + 1, got') && |t.vRandom| == |s.vRandom| && |got'| <= |got| + 1
  {
    var j := PickFrom(rnd, n, |s.vRandom|);
    CanSwap(h, s, n, j);
    SwappedKeeps(h, s, n, j, {});
    var t := Swapped(s, n, j);
    HandedGrows(h, s, n, j, got, t.vRandom[n] in t.mapInfo && !t.mapInfo[t.vRandom[n]].IsTerrible(now));
  }

  /** GetAddr_ keeps the invariant and hands out distinct entries, no more than the limit. */
  lemma HandedMore(s: AddrMan, n: nat, m: nat, ids: seq<int>)
    requires Handed(s, n, ids) && n <= m
    ensures Handed(s, m, ids)
  {}

  lemma {:induction false} ShuffledKeeps(h: Hashes, s: AddrMan, n: nat, nNodes: int, now: int, rnd: nat -> nat, got: seq<int>)
    requires Inv(h, s) && n <= |s.vRandom| && Handed(s, n, got)
    ensures var (s', ids) := Shuffled(s, n, nNodes, now, rnd, got);
      && Inv(h, s') && Handed(s', |s'.vRandom|, ids)
      && (|got| <= nNodes ==> |ids| <= nNodes)
    decreases |s.vRandom| - n
  {
    hide Inv, Handed, ShuffleStep;
    HandedMore(s, n, |s.vRandom|, got);
    if n < |s.vRandom| && |got| < nNodes {
      ShuffleStepKeeps(h, s, n, now, rnd, got);
      var (t, got') := ShuffleStep(s, n, now, rnd, got);
      ShuffledKeeps(h, t, n + 1, nNodes, now, rnd, got');
    }
  }

  // ----- What an operation can lose, and what it can add -----

  /** Clearing a slot forgets an entry only if that was its last reference. */
  lemma ClearNewLoses(h: Hashes, s: AddrMan, sl: Slot)
    requires Core(h, s)
    ensures ClearNew(s, sl).mapInfo.Keys ==
      s.mapInfo.Keys - if sl in s.vvNew && s.vvNew[sl] in s.mapInfo && s.mapInfo[s.vvNew[sl]].nRefCount == 1 then {s.vvNew[sl]} else {}
  {
    if sl in s.vvNew {
      assert NewOk(h, s, sl);
      var id, u := s.vvNew[sl], Unref(s, sl);
      assert u.mapInfo.Keys == s.mapInfo.Keys;
      if u.mapInfo[id].nRefCount == 0 {
        LastRefDeletable(h, s, sl);
        DeletedKeys(u, id);
      }
    }
  }

  lemma LastRefDeletable(h: Hashes, s: AddrMan, sl: Slot)
    requires Core(h, s) && sl in s.vvNew && s.vvNew[sl] in s.mapInfo && s.mapInfo[s.vvNew[sl]].nRefCount == 1
    ensures Deletable(Unref(s, sl), s.vvNew[sl])
  {
    assert NewOk(h, s, sl);
    var id, u := s.vvNew[sl], Unref(s, sl);
    SameIndex(s, u);
    assert IdOk(u, id) && PosOk(u, u.mapInfo[id].nRandomPos) && PosOk(u, |u.vRandom| - 1);
  }

  lemma DeletedKeys(s: AddrMan, id: int)
    requires Deletable(s, id)
    ensures Deleted(s, id).mapInfo.Keys == s.mapInfo.Keys - {id}
  {}

  /** The occupant of the tried slot stays, and what is lost had its last reference in the occupant's home slot. */
  ghost predicate LostOnlyAtHome(h: Hashes, s: AddrMan, t: AddrMan, ts: Slot)
    requires ts in s.vvTried
  {
    var prev := s.vvTried[ts];
    prev in s.mapInfo && prev in t.mapInfo &&
    forall x :: x in s.mapInfo && x !in t.mapInfo ==> LastAt(s, HomeSlot(h, s.mapInfo[prev], s.mapInfo[prev].source), x)
  }

  ghost predicate LastAt(s: AddrMan, us: Slot, id: int)
    requires id in s.mapInfo
  {
    us in s.vvNew && s.vvNew[us] == id && s.mapInfo[id].nRefCount == 1
  }

  /**
    Making an entry tried loses no entry, except one that held its last reference where the evicted entry has to
    go; the evicted entry itself stays.
    */
  lemma MadeTriedLosesAtMostOne(h: Hashes, s: AddrMan, id: int)
    requires Inv(h, s) && id in s.mapInfo && !s.mapInfo[id].fInTried
    ensures var t := MadeTried(h, s, id); var ts := h.TriedSlot(s.mapInfo[id].service);
      && (ts !in s.vvTried ==> t.mapInfo.Keys == s.mapInfo.Keys)
      && (ts in s.vvTried ==> LostOnlyAtHome(h, s, t, ts))
  {
    hide Live, Inv;
    UnlistedFacts(h, s, id);
    var u, ts := Unlisted(s, id), h.TriedSlot(s.mapInfo[id].service);
    EvictedKeeps(h, u, ts, id);
    EvictedLoses(h, u, ts, id);
    var e := Evicted(h, u, ts);
    assert ToTried(h, e, id).mapInfo.Keys == e.mapInfo.Keys;
    if ts in s.vvTried {
      TriedIsNotNew(h, s, ts);
    }
  }

  lemma UnlistedFacts(h: Hashes, s: AddrMan, id: int)
    requires Inv(h, s) && id in s.mapInfo && !s.mapInfo[id].fInTried
    ensures Core(h, s) && Core(h, Unlisted(s, id)) && Live(Unlisted(s, id), {id})
    ensures Unlisted(s, id).mapInfo.Keys == s.mapInfo.Keys
  {
    UnlistedKeeps(h, s, id, {});
    assert {} + {id} == {id};
  }

  lemma TriedIsNotNew(h: Hashes, s: AddrMan, ts: Slot)
    requires Core(h, s) && ts in s.vvTried
    ensures s.vvTried[ts] in s.mapInfo && s.mapInfo[s.vvTried[ts]].fInTried
  {
    assert TriedOk(h, s, ts);
  }

  lemma EvictedLoses(h: Hashes, s: AddrMan, ts: Slot, id: int)
    requires Core(h, s) && Live(s, {id}) && id in s.mapInfo && !s.mapInfo[id].fInTried && s.mapInfo[id].nRefCount == 0
    ensures var e := Evicted(h, s, ts);
      && (ts !in s.vvTried ==> e.mapInfo.Keys == s.mapInfo.Keys)
      && (ts in s.vvTried ==> LostOnlyAtHome(h, s, e, ts))
  {
    if ts in s.vvTried {
      TriedIsNotNew(h, s, ts);
      var prev := s.vvTried[ts];
      FromTriedKeeps(h, s, prev, {id});
      var f := FromTried(h, s, prev);
      var us := HomeSlot(h, f.mapInfo[prev], f.mapInfo[prev].source);
      NotListed(h, f, prev, us);
      ClearNewLoses(h, f, us);
      assert f.mapInfo.Keys == s.mapInfo.Keys;
    }
  }

  /** A slot that is free, or whose occupant gives way to a new entry. */
  predicate RoomAt(s: AddrMan, us: Slot, now: int) {
    us !in s.vvNew || (s.vvNew[us] in s.mapInfo && (s.mapInfo[s.vvNew[us]].IsTerrible(now) || s.mapInfo[s.vvNew[us]].nRefCount > 1))
  }

  /**
    Add_ reports an unknown routable address as added. It stays exactly if its slot in the new table is free, or
    held by an entry that is terrible or has another reference.
    */
  lemma NewEntryStays(h: Hashes, s: AddrMan, addr: Address, source: NetAddr, nTimePenalty: int, now: int, roll: nat)
    requires Inv(h, s) && addr.service.ip !in s.mapAddr
    ensures var (t, added) := Add(h, s, addr, source, nTimePenalty, true, now, roll);
      && added
      && (addr.service.ip in t.mapAddr <==> RoomAt(s, h.NewSlot(addr.service, h.NewBucket(addr.service, source)), now))
  {
    hide Inv, Core, Live, Info.IsTerrible, Filed;
    InvParts(h, s);
    var c, id := Announced(s, addr, source, nTimePenalty), s.nIdCount;
    var us := h.NewSlot(addr.service, h.NewBucket(addr.service, source));
    CreatedKeeps(h, s, addr.(nTime := Max(0, addr.nTime - nTimePenalty)), source, {});
    assert {} + {id} == {id};
    if us in s.vvNew { SlotHolder(h, s, us); }
    FiledStays(h, c, id, source, now);
  }

  lemma FiledStays(h: Hashes, c: AddrMan, id: int, source: NetAddr, now: int)
    requires Core(h, c) && Live(c, {id}) && id in c.mapInfo && !c.mapInfo[id].fInTried && c.mapInfo[id].nRefCount == 0
    ensures c.mapInfo[id].service.ip in Filed(h, c, id, source, now).mapAddr <==> RoomAt(c, HomeSlot(h, c.mapInfo[id], source), now)
  {
    hide Live, Info.IsTerrible;
    var us := HomeSlot(h, c.mapInfo[id], source);
    NotListed(h, c, id, us);
    if us !in c.vvNew || Yields(c, us, id, now) {
      ClearNewKeeps(h, c, us, {id});
      assert Spared(c, ClearNew(c, us), id);
      EntryIsFound(h, ClearNew(c, us), id);
    } else {
      CanDelete(h, c, id);
      DroppedAddress(c, id);
      SlotHolder(h, c, us);
    }
  }

  lemma InvParts(h: Hashes, s: AddrMan)
    requires Inv(h, s)
    ensures Core(h, s) && Live(s, {})
  {}

  lemma SlotHolder(h: Hashes, s: AddrMan, sl: Slot)
    requires Core(h, s) && sl in s.vvNew
    ensures s.vvNew[sl] in s.mapInfo && s.vvNew[sl] != s.nIdCount
  {
    assert NewOk(h, s, sl) && IdOk(s, s.vvNew[sl]);
  }

  lemma EntryIsFound(h: Hashes, s: AddrMan, id: int)
    requires Core(h, s) && id in s.mapInfo
    ensures s.mapInfo[id].service.ip in s.mapAddr
  {
    assert IdOk(s, id);
  }

  lemma DroppedAddress(s: AddrMan, id: int)
    requires Deletable(s, id)
    ensures s.mapInfo[id].service.ip !in Deleted(s, id).mapAddr
  {}

  const COLLIDING := Hashes(_ => 0, (_, _) => 0, (_, _, _) => 0)

  function OneEntry(now: nat): AddrMan {
    AddrMan(1, map[0 := Info(Service(1, 1), {}, now, 0, 7, 0, 0, 1, false, 0)], map[1 := 0], [0], 0, map[], 1, map[(0, 0) := 0])
  }

  lemma FirstIsAdded(now: nat)
    ensures Add(COLLIDING, Empty, Address(Service(1, 1), {}, now), 7, 0, true, now, 0) == (OneEntry(now), true)
  {
    var c := Announced(Empty, Address(Service(1, 1), {}, now), 7, 0);
    assert c == AddrMan(1, map[0 := Info(Service(1, 1), {}, now, 0, 7, 0, 0, 0, false, 0)], map[1 := 0], [0], 0, map[], 1, map[]);
    assert HomeSlot(COLLIDING, c.mapInfo[0], 7) == (0, 0);
    assert Ref(c, (0, 0), 0) == OneEntry(now);
  }

  /** For example, from an empty manager: with colliding hashes a second new address is reported as added, and dropped. */
  lemma AddedButDropped(now: nat)
    requires now > 0
    ensures Add(COLLIDING, Empty, Address(Service(1, 1), {}, now), 7, 0, true, now, 0) == (OneEntry(now), true)
    ensures var (t, added) := Add(COLLIDING, OneEntry(now), Address(Service(2, 2), {}, now), 7, 0, true, now, 0);
      added && 2 !in t.mapAddr
  {
    FirstIsAdded(now);
  }

  /** A repeated announcement never takes services away, nor makes an entry look older. */
  lemma RefreshedGrows(info: Info, addr: Address, nTimePenalty: int, now: int)
    requires info.nTime >= 0 && nTimePenalty >= 0
    ensures var r := Refreshed(info, addr, nTimePenalty, now);
      && r.nTime >= info.nTime && r.nServices == info.nServices + addr.nServices && r.SameLinks(info)
      && (r.nTime != info.nTime ==> r.nTime == Max(0, addr.nTime - nTimePenalty))
  {}

  // ----- Runs -----

  datatype Op =
    | AddOp(addr: Address, source: NetAddr, nTimePenalty: int, isRoutable: bool, now: int, roll: nat)
    | GoodOp(service: Service, nTime: int)
    | AttemptOp(service: Service, nTime: int)
    | ConnectedOp(service: Service, nTime: int)
    | GetAddrOp(now: int, rnd: nat -> nat)

  ghost function Step(h: Hashes, s: AddrMan, op: Op): AddrMan {
    match op
    case AddOp(addr, source, nTimePenalty, isRoutable, now, roll) => Add(h, s, addr, source, nTimePenalty, isRoutable, now, roll).0
    case GoodOp(a, nTime) => Good(h, s, a, nTime)
    case AttemptOp(a, nTime) => Attempt(s, a, nTime)
    case ConnectedOp(a, nTime) => Connected(s, a, nTime)
    case GetAddrOp(now, rnd) => Shuffled(s, 0, AddrLimit(s), now, rnd, []).0
  }

  lemma AttemptKeeps(h: Hashes, s: AddrMan, a: Service, nTime: int)
    requires Inv(h, s)
    ensures Inv(h, Attempt(s, a, nTime))
  {
    if Knows(s, a) {
      var id := s.mapAddr[a.ip];
      TouchKeeps(h, s, id, s.mapInfo[id].(nLastTry := nTime, nAttempts := s.mapInfo[id].nAttempts + 1), {});
    }
  }

  lemma ConnectedKeeps(h: Hashes, s: AddrMan, a: Service, nTime: int)
    requires Inv(h, s)
    ensures Inv(h, Connected(s, a, nTime))
  {
    if Knows(s, a) {
      var id := s.mapAddr[a.ip];
      TouchKeeps(h, s, id, s.mapInfo[id].(nTime := nTime), {});
    }
  }

  lemma StepKeepsInv(h: Hashes, s: AddrMan, op: Op)
    requires Inv(h, s)
    ensures Inv(h, Step(h, s, op))
  {
    match op
    case AddOp(addr, source, nTimePenalty, isRoutable, now, roll) => AddKeeps(h, s, addr, source, nTimePenalty, isRoutable, now, roll);
    case GoodOp(a, nTime) => GoodKeeps(h, s, a, nTime);
    case AttemptOp(a, nTime) => AttemptKeeps(h, s, a, nTime);
    case ConnectedOp(a, nTime) => ConnectedKeeps(h, s, a, nTime);
    case GetAddrOp(now, rnd) => ShuffledKeeps(h, s, 0, AddrLimit(s), now, rnd, []);
  }

  ghost function Run(h: Hashes, s: AddrMan, ops: seq<Op>): AddrMan {
    if ops == [] then s else Step(h, Run(h, s, ops[..|ops| - 1]), ops[|ops| - 1])
  }

  /** Every state reached from an empty manager satisfies the invariant, whatever the hashes. */
  lemma {:induction false} ReachableStatesSatisfyInv(h: Hashes, ops: seq<Op>)
    ensures Inv(h, Run(h, Empty, ops))
  {
    if ops == [] {
      assert TriedIds(Empty) == {} && NewIds(Empty) == {};
    } else {
      ReachableStatesSatisfyInv(h, ops[..|ops| - 1]);
      StepKeepsInv(h, Run(h, Empty, ops[..|ops| - 1]), ops[|ops| - 1]);
    }
  }

  /** The structural tests of Check_, return code by return code, as the code makes them. */
  ghost predicate CheckPasses(h: Hashes, s: AddrMan) {
    && |s.vRandom| == s.nTried + s.nNew                                             // -7
    && (forall id :: id in s.mapInfo ==> var info := s.mapInfo[id];
        && (if info.fInTried then info.nRefCount == 0                               // -2
            else 1 <= info.nRefCount <= NEW_BUCKETS_PER_ADDRESS)                    // -3, -4
        && info.service.ip in s.mapAddr && s.mapAddr[info.service.ip] == id         // -5
        && 0 <= info.nRandomPos < |s.vRandom| && s.vRandom[info.nRandomPos] == id)  // -14
    && |TriedIds(s)| == s.nTried && |NewIds(s)| == s.nNew                           // -9, -10
    && (forall sl :: sl in s.vvTried ==>
        s.vvTried[sl] in TriedIds(s) && sl == h.TriedSlot(s.mapInfo[s.vvTried[sl]].service))  // -11, -17, -18
    && (forall id :: id in TriedIds(s) ==> exists sl :: sl in s.vvTried && s.vvTried[sl] == id) // -13
    && (forall sl :: sl in s.vvNew ==>
        s.vvNew[sl] in NewIds(s) && sl == h.NewSlot(s.mapInfo[s.vvNew[sl]].service, sl.0))    // -12, -19
    && (forall id :: id in NewIds(s) ==> |SlotsOf(s.vvNew, id)| == s.mapInfo[id].nRefCount)   // -15
  }

  lemma InvPassesCheck(h: Hashes, s: AddrMan)
    requires Inv(h, s)
    ensures CheckPasses(h, s)
  {
    assert TriedIds(s) + NewIds(s) == s.mapInfo.Keys && TriedIds(s) !! NewIds(s);
    assert |s.mapInfo.Keys| == |s.mapInfo|;
    forall sl | sl in s.vvNew ensures s.vvNew[sl] in NewIds(s) && sl == h.NewSlot(s.mapInfo[s.vvNew[sl]].service, sl.0) {
      assert NewOk(h, s, sl);
    }
    forall sl | sl in s.vvTried ensures s.vvTried[sl] in TriedIds(s) && sl == h.TriedSlot(s.mapInfo[s.vvTried[sl]].service) {
      assert TriedOk(h, s, sl);
    }
    forall id | id in s.mapInfo ensures IdOk(s, id) && ListedOk(h, s, id) && RefOk(s, id) && LiveId(s.mapInfo[id], id in {}) {}
    forall id | id in TriedIds(s) ensures SlotsOf(s.vvNew, id) == {} {}
  }
}
