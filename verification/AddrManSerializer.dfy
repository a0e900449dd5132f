/** CAddrMan's Serialize and Unserialize: the loops, which carry out AddrManDisk's Save and Load. */
module AddrManSerializer {
  import opened Arith
  import opened AddrManState
  import opened AddrManDisk
  import opened CAddrMan
  import O = AddrManOps

  lemma PrefixGrows(s: AddrMan, order: seq<int>, k: nat)
    requires Known(s, order) && k < |order|
    ensures Known(s, order[..k]) && Known(s, order[..k + 1]) && order[k] in s.mapInfo
    ensures UnkIds(s, order[..k + 1]) == UnkIds(s, order[..k])[order[k] := |WithRefs(s, order[..k])|]
    ensures var more := s.mapInfo[order[k]].nRefCount != 0;
      Records(s, WithRefs(s, order[..k + 1])) == Records(s, WithRefs(s, order[..k])) + if more then [RecordOf(s.mapInfo[order[k]])] else []
    ensures Records(s, InTried(s, order[..k + 1])) ==
      Records(s, InTried(s, order[..k])) + if s.mapInfo[order[k]].fInTried then [RecordOf(s.mapInfo[order[k]])] else []
  {
    assert order[..k + 1][..k] == order[..k];
  }

  /** `order` is the order in which a std::map hands out its keys. */
  method Serialize(a: CAddrMan, order: seq<int>) returns (d: Disk)
    requires a.Shaped() && Inv(a.hashes, a.Abs()) && Enumerates(order, a.Abs())
    ensures Known(a.Abs(), order) && d == Save(a.Abs(), order)
  {
    hide Inv, Occupied, UnkIds, WithRefs, InTried, Records, BucketIds, Known;
    ghost var s := a.Abs();
    EnumeratesKnows(s, order);
    var mapUnkIds, news, nIds := map[], [], 0;
    NothingWritten(s);
    assert order[..0] == [];
    for k := 0 to |order|
      invariant Known(s, order[..k]) && mapUnkIds == UnkIds(s, order[..k])
      invariant news == Records(s, WithRefs(s, order[..k])) && nIds == |news|
    {
      PrefixGrows(s, order, k);
      NoMoreThanAnnounced(a.hashes, s, order, k);
      mapUnkIds := mapUnkIds[order[k] := nIds];
      var info := a.mapInfo[order[k]];
      if info.nRefCount != 0 {
        assert nIds < a.nNew;  // the code asserts nIds != nNew
        news := news + [RecordOf(info)];
        nIds := nIds + 1;
      }
    }
    var trieds := [];
    nIds := 0;
    for k := 0 to |order|
      invariant Known(s, order[..k])
      invariant trieds == Records(s, InTried(s, order[..k])) && nIds == |trieds|
    {
      PrefixGrows(s, order, k);
      NoMoreThanAnnounced(a.hashes, s, order, k);
      var info := a.mapInfo[order[k]];
      if info.fInTried {
        assert nIds < a.nTried;  // the code asserts nIds != nTried
        trieds := trieds + [RecordOf(info)];
        nIds := nIds + 1;
      }
    }
    assert order[..|order|] == order;
    var buckets := WriteBuckets(a, mapUnkIds);
    d := Disk(1, 32, a.nNew, a.nTried, FlipBit30(NEW_BUCKET_COUNT), news, trieds, buckets);
  }

  lemma NothingWritten(s: AddrMan)
    ensures Known(s, []) && UnkIds(s, []) == map[] && Records(s, WithRefs(s, [])) == [] && Records(s, InTried(s, [])) == []
  {}

  method WriteBuckets(a: CAddrMan, mapUnkIds: map<int, int>) returns (buckets: seq<seq<int>>)
    requires a.Shaped()
    ensures buckets == BucketsOnDisk(mapUnkIds, a.Abs().vvNew, NEW_BUCKET_COUNT)
  {
    hide Occupied, BucketIds;
    buckets := [];
    for bucket := 0 to NEW_BUCKET_COUNT
      invariant buckets == BucketsOnDisk(mapUnkIds, a.Abs().vvNew, bucket)
    {
      var indices := [];
      NoIds(mapUnkIds, a.Abs().vvNew, bucket);
      for i := 0 to BUCKET_SIZE
        invariant indices == Rename(mapUnkIds, BucketIds(a.Abs().vvNew, bucket, i))
      {
        SlotRead(a.vvNew, bucket, i);
        NextId(mapUnkIds, a.Abs().vvNew, bucket, i);
        var id := a.vvNew[bucket, i];
        if id != -1 {
          indices := indices + [if id in mapUnkIds then mapUnkIds[id] else 0];
        }
      }
      buckets := buckets + [indices];
    }
  }

  lemma NoIds(m: map<int, int>, t: Table, b: nat)
    ensures Rename(m, BucketIds(t, b, 0)) == []
  {}

  lemma NextId(m: map<int, int>, t: Table, b: nat, p: nat)
    ensures Rename(m, BucketIds(t, b, p + 1)) == Rename(m, BucketIds(t, b, p)) +
      if (b, p) in t then [if t[(b, p)] in m then m[t[(b, p)]] else 0] else []
  {}

  // ----- Reading -----

  /** mapInfo and vRandom are mutually inverse, with ids below nIdCount, and negative ones tried: all that pruning needs. */
  ghost predicate Placed(s: AddrMan) {
    && (forall id {:trigger PlacedId(s, id)} :: id in s.mapInfo ==> PlacedId(s, id))
    && (forall i {:trigger PosOk(s, i)} :: 0 <= i < |s.vRandom| ==> PosOk(s, i))
  }

  ghost predicate PlacedId(s: AddrMan, id: int)
    requires id in s.mapInfo
  {
    var pos := s.mapInfo[id].nRandomPos;
    id < s.nIdCount && (id >= 0 || s.mapInfo[id].fInTried) && 0 <= pos < |s.vRandom| && s.vRandom[pos] == id
  }

  lemma PlacedCanDelete(s: AddrMan, id: int)
    requires Placed(s) && Prunable(s, id)
    ensures Deletable(s, id)
  {
    assert PlacedId(s, id) && PosOk(s, s.mapInfo[id].nRandomPos) && PosOk(s, |s.vRandom| - 1);
  }

  lemma SamePlaces(s: AddrMan, s': AddrMan)
    requires Placed(s) && s'.mapInfo.Keys == s.mapInfo.Keys && s'.vRandom == s.vRandom && s'.nIdCount == s.nIdCount
    requires forall id :: id in s.mapInfo ==> s'.mapInfo[id].nRandomPos == s.mapInfo[id].nRandomPos
    requires forall id :: id in s.mapInfo ==> s'.mapInfo[id].fInTried == s.mapInfo[id].fInTried
    ensures Placed(s')
  {
    forall id | id in s'.mapInfo ensures PlacedId(s', id) { assert PlacedId(s, id); }
    forall i | 0 <= i < |s'.vRandom| ensures PosOk(s', i) {
      assert PosOk(s, i);
      var id := s.vRandom[i];
      assert id in s.mapInfo.Keys && s'.mapInfo[id].nRandomPos == s.mapInfo[id].nRandomPos;
    }
  }

  lemma EnteredPlaced(s: AddrMan, r: Record)
    requires Placed(s) && s.nIdCount >= 0
    ensures Placed(Entered(s, r))
  {
    var s' := Entered(s, r);
    forall id | id in s'.mapInfo ensures PlacedId(s', id) { if id != s.nIdCount { assert PlacedId(s, id); } }
    forall i | 0 <= i < |s'.vRandom| ensures PosOk(s', i) {
      if i < |s.vRandom| { assert PosOk(s, i) && PlacedId(s, s.vRandom[i]); }
    }
  }

  /** After n entries of the new table: their ids are 0 to n - 1. */
  lemma {:induction false} NewsPlaced(h: Hashes, legacy: bool, news: seq<Record>)
    ensures var s := NewsRead(h, legacy, news);
      Placed(s) && s.nIdCount == |news| && s.nNew == |news| && s.nTried == 0 && s.vvTried == map[]
    ensures forall i :: i in NewsRead(h, legacy, news).mapInfo <==> 0 <= i < |news|
  {
    if news != [] {
      NewsPlaced(h, legacy, news[..|news| - 1]);
      var s := NewsRead(h, legacy, news[..|news| - 1]);
      var e := Entered(s, news[|news| - 1]);
      EnteredPlaced(s, news[|news| - 1]);
      HomePlaced(h, e, s.nIdCount);
    }
  }

  lemma HomePlaced(h: Hashes, s: AddrMan, id: int)
    requires Placed(s)
    ensures var t := FiledAtHome(h, s, id);
      Placed(t) && t.mapInfo.Keys == s.mapInfo.Keys && t == s.(mapInfo := t.mapInfo, vvNew := t.vvNew)
  {
    SamePlaces(s, FiledAtHome(h, s, id));
  }

  lemma TriedPlaced(h: Hashes, s: AddrMan, r: Record)
    requires Placed(s)
    ensures var t := TriedRead(h, s, r);
      && Placed(t) && s.mapInfo.Keys <= t.mapInfo.Keys && t.nNew == s.nNew
      && t.nTried == s.nTried + (if h.TriedSlot(r.service) in s.vvTried then 0 else 1)
  {
    hide Entered, ToTried;
    TriedReadIs(h, s, r);
    var t := TriedRead(h, s, r);
    forall id | id in t.mapInfo ensures PlacedId(t, id) { if id in s.mapInfo { assert PlacedId(s, id); } }
    forall i | 0 <= i < |t.vRandom| ensures PosOk(t, i) {
      if i < |s.vRandom| { assert PosOk(s, i) && PlacedId(s, s.vRandom[i]); }
    }
  }

  /** Before the tried entries ids go on from the announced number of new ones; a negative one comes with no entries. */
  lemma RenumberedPlaced(s: AddrMan, n: int)
    requires Placed(s) && (n == s.nIdCount || s.mapInfo == map[])
    ensures Placed(s.(nIdCount := n, nNew := n))
  {
    var t := s.(nIdCount := n, nNew := n);
    forall id | id in t.mapInfo ensures PlacedId(t, id) { assert PlacedId(s, id); }
    forall i | 0 <= i < |t.vRandom| ensures PosOk(t, i) { assert PosOk(s, i); }
  }

  lemma IndexPlaced(h: Hashes, legacy: bool, nNew: int, s: AddrMan, b: nat, nIndex: int)
    requires Placed(s)
    ensures var t := IndexRead(h, legacy, nNew, s, b, nIndex);
      Placed(t) && t.mapInfo.Keys == s.mapInfo.Keys && t == s.(mapInfo := t.mapInfo, vvNew := t.vvNew)
  {
    SamePlaces(s, IndexRead(h, legacy, nNew, s, b, nIndex));
  }

  lemma DeletedPlaced(s: AddrMan, id: int)
    requires Placed(s) && Deletable(s, id)
    ensures Placed(Deleted(s, id)) && Deleted(s, id).nIdCount == s.nIdCount
  {
    hide Swapped;
    var i, j := s.mapInfo[id].nRandomPos, |s.vRandom| - 1;
    assert PlacedId(s, id);
    SwappedPlaced(s, i, j);
    var w, t := Swapped(s, i, j), Deleted(s, id);
    assert w.vRandom[j] == id && PosOk(w, j);
    forall k | k in t.mapInfo ensures PlacedId(t, k) { assert PlacedId(w, k); }
    forall k | 0 <= k < |t.vRandom| ensures PosOk(t, k) { assert PosOk(w, k); }
  }

  lemma SwappedPlaced(s: AddrMan, i: nat, j: nat)
    requires Placed(s) && Swappable(s, i, j)
    ensures var w := Swapped(s, i, j);
      Placed(w) && |w.vRandom| == |s.vRandom| && w.vRandom[j] == s.vRandom[i] && w.nIdCount == s.nIdCount && w.mapInfo.Keys == s.mapInfo.Keys
  {
    var w := Swapped(s, i, j);
    assert PosOk(s, i) && PosOk(s, j);
    SwappedAt(s, i, j);
    forall k | k in w.mapInfo ensures PlacedId(w, k) { assert PlacedId(s, k); }
    forall k | 0 <= k < |w.vRandom| ensures PosOk(w, k) { assert PosOk(s, k); }
  }

  lemma PrefixOf<T>(all: seq<T>, k: nat)
    requires k < |all|
    ensures all[..k + 1][..k] == all[..k] && all[..k + 1][k] == all[k] && |all[..k + 1]| == k + 1
  {}

  /** A CAddrInfo as its constructor and its fields in the stream leave it. */
  function FromRecord(r: Record, nRandomPos: int, fInTried: bool): Info {
    Info(r.service, r.nServices, r.nTime, 0, r.source, r.nLastSuccess, r.nAttempts, 0, fInTried, nRandomPos)
  }

  lemma EnteredIs(s: AddrMan, r: Record)
    ensures Entered(s, r) == s.(nIdCount := s.nIdCount + 1,
      mapInfo := s.mapInfo[s.nIdCount := FromRecord(r, |s.vRandom|, false)],
      mapAddr := s.mapAddr[r.service.ip := s.nIdCount], vRandom := s.vRandom + [s.nIdCount], nNew := s.nNew + 1)
  {
    var id := s.nIdCount;
    var c := Created(s, Address(r.service, r.nServices, Max(0, r.nTime)), r.source);
    assert s.mapInfo[id := c.mapInfo[id]][id := FromRecord(r, |s.vRandom|, false)] == s.mapInfo[id := FromRecord(r, |s.vRandom|, false)];
  }

  /**
    Into a manager as its constructor leaves it. It fails, as the code throws, exactly on a wrong key size and on a
    stream that ends too early; any other header is read, also one with negative counts.
    */
  method Unserialize(a: CAddrMan, d: Disk) returns (ok: bool)
    requires a.Shaped() && a.Abs() == Empty && Streamed(d)
    modifies a, a.vvNew, a.vvTried
    ensures ok <==> Readable(d)
    ensures ok ==> a.Abs() == Load(a.hashes, d)
    ensures d.nKeySize != 32 ==> a.Abs() == Empty
  {
    hide Occupied, NewsRead, TriedsRead, BucketsRead, Pruned, Placed;
    if d.nKeySize != 32 {
      return false;
    }
    a.nNew, a.nTried := d.nNew, d.nTried;
    ReadNews(a, d);
    if |d.news| < d.nNew {
      return false;
    }
    ghost var news := NewsRead(a.hashes, Legacy(d), d.news);
    NewsPlaced(a.hashes, Legacy(d), d.news);
    NoneForNegative(a.hashes, d);
    RenumberedPlaced(news, d.nNew);
    a.nIdCount := a.nNew;
    if |d.trieds| < d.nTried {
      return false;
    }
    ReadTrieds(a, news.(nIdCount := d.nNew, nNew := d.nNew), d);
    if |d.buckets| < BucketsOf(d) {
      return false;
    }
    ReadBuckets(a, d);
    Prune(a);
    ok := true;
  }

  lemma NoneForNegative(h: Hashes, d: Disk)
    requires |d.news| == Max(0, d.nNew)
    ensures d.nNew < 0 ==> NewsRead(h, Legacy(d), d.news).mapInfo == map[]
  {}

  method ReadNews(a: CAddrMan, d: Disk)
    requires a.Shaped() && a.Abs() == Empty.(nNew := d.nNew, nTried := d.nTried)
    modifies a`mapInfo, a`mapAddr, a`vRandom, a.vvNew
    ensures a.Abs() == NewsRead(a.hashes, Legacy(d), d.news).(nIdCount := 0, nNew := d.nNew, nTried := d.nTried)
  {
    hide Occupied, Placed, Entered, FiledAtHome;
    var h := a.hashes;
    for n := 0 to |d.news|
      invariant a.Abs() == NewsRead(h, Legacy(d), d.news[..n]).(nIdCount := 0, nNew := d.nNew, nTried := d.nTried)
    {
      PrefixOf(d.news, n);
      ghost var s := NewsRead(h, Legacy(d), d.news[..n]);
      NewsPlaced(h, Legacy(d), d.news[..n]);
      EnteredIs(s, d.news[n]);
      var info := FromRecord(d.news[n], |a.vRandom|, false);
      a.mapInfo := a.mapInfo[n := info];
      a.mapAddr := a.mapAddr[info.service.ip := n];
      a.vRandom := a.vRandom + [n];
      if Legacy(d) {
        HomeIgnoresCounters(h, Entered(s, d.news[n]), n, 0, d.nNew, d.nTried);
        FileAtHome(a, n);
      }
    }
    assert d.news[..|d.news|] == d.news;
  }

  lemma HomeIgnoresCounters(h: Hashes, s: AddrMan, id: int, nIdCount: int, nNew: int, nTried: int)
    ensures FiledAtHome(h, s.(nIdCount := nIdCount, nNew := nNew, nTried := nTried), id) ==
      FiledAtHome(h, s, id).(nIdCount := nIdCount, nNew := nNew, nTried := nTried)
  {}

  method FileAtHome(a: CAddrMan, n: int)
    requires a.Shaped() && n in a.mapInfo && n != -1
    modifies a`mapInfo, a.vvNew
    ensures a.Abs() == FiledAtHome(a.hashes, old(a.Abs()), n)
  {
    hide Occupied;
    var info := a.mapInfo[n];
    var nUBucket := a.hashes.NewBucket(info.service, info.source);
    var nUBucketPos := a.hashes.Position(info.service, true, nUBucket);
    SlotRead(a.vvNew, nUBucket, nUBucketPos);
    if a.vvNew[nUBucket, nUBucketPos] == -1 {
      SetSlot(a.vvNew, nUBucket, nUBucketPos, n);
      a.mapInfo := a.mapInfo[n := info.(nRefCount := info.nRefCount + 1)];
    }
  }

  lemma NoTriedsRead(h: Hashes, base: AddrMan)
    ensures TriedsRead(h, base, []) == base
  {}

  lemma NextTriedRead(h: Hashes, base: AddrMan, trieds: seq<Record>, n: nat)
    requires n < |trieds|
    ensures TriedsRead(h, base, trieds[..n + 1]) == TriedRead(h, TriedsRead(h, base, trieds[..n]), trieds[n])
  {
    hide TriedRead;
    PrefixOf(trieds, n);
  }

  method ReadTrieds(a: CAddrMan, ghost base: AddrMan, d: Disk)
    requires a.Shaped() && a.Abs() == base.(nTried := d.nTried) && Placed(base) && base.nTried == 0 && |d.trieds| == Max(0, d.nTried)
    modifies a, a.vvTried
    ensures var e := TriedsRead(a.hashes, base, d.trieds); a.Abs() == if d.nTried < 0 then e.(nTried := d.nTried) else e
    ensures Placed(a.Abs()) && base.mapInfo.Keys <= a.mapInfo.Keys
  {
    hide Occupied, Placed, Entered, TriedRead, TriedsRead;
    var h := a.hashes;
    var nLost := 0;
    NoTriedsRead(h, base);
    for n := 0 to |d.trieds|
      invariant a.Abs() == TriedsRead(h, base, d.trieds[..n]).(nTried := d.nTried)
      invariant TriedsRead(h, base, d.trieds[..n]).nTried == n - nLost
      invariant Placed(TriedsRead(h, base, d.trieds[..n])) && base.mapInfo.Keys <= a.mapInfo.Keys
    {
      NextTriedRead(h, base, d.trieds, n);
      ghost var s := TriedsRead(h, base, d.trieds[..n]);
      TriedPlaced(h, s, d.trieds[n]);
      TriedReadIs(h, s, d.trieds[n]);
      var info := FromRecord(d.trieds[n], |a.vRandom|, false);
      var nKBucket := h.TriedBucket(info.service);
      var nKBucketPos := h.Position(info.service, false, nKBucket);
      SlotRead(a.vvTried, nKBucket, nKBucketPos);
      if a.vvTried[nKBucket, nKBucketPos] == -1 {
        a.vRandom := a.vRandom + [a.nIdCount];
        a.mapInfo := a.mapInfo[a.nIdCount := info.(fInTried := true)];
        a.mapAddr := a.mapAddr[info.service.ip := a.nIdCount];
        WriteSlot(a.vvTried, nKBucket, nKBucketPos, a.nIdCount);
        a.nIdCount := a.nIdCount + 1;
      } else {
        nLost := nLost + 1;
      }
    }
    assert d.trieds[..|d.trieds|] == d.trieds;
    ghost var s := TriedsRead(h, base, d.trieds);
    a.nTried := a.nTried - nLost;
    CounterPlaced(s, a.nTried);
  }

  lemma CounterPlaced(s: AddrMan, n: int)
    requires Placed(s)
    ensures Placed(s.(nTried := n))
  {
    SamePlaces(s, s.(nTried := n));
  }

  /** Writing an id into a slot; -1 leaves it free. */
  method WriteSlot(a: array2<int>, b: nat, p: nat, id: int)
    requires b < a.Length0 && p < a.Length1
    modifies a
    ensures Occupied(a) == if id == -1 then old(Occupied(a)) - {(b, p)} else old(Occupied(a))[(b, p) := id]
  {
    if id == -1 { FreeSlot(a, b, p); } else { SetSlot(a, b, p, id); }
  }

  lemma TriedReadIs(h: Hashes, s: AddrMan, r: Record)
    ensures TriedRead(h, s, r) == if h.TriedSlot(r.service) in s.vvTried then s else
      s.(nIdCount := s.nIdCount + 1,
         mapInfo := s.mapInfo[s.nIdCount := FromRecord(r, |s.vRandom|, true)],
         mapAddr := s.mapAddr[r.service.ip := s.nIdCount], vRandom := s.vRandom + [s.nIdCount],
         vvTried := if s.nIdCount == -1 then s.vvTried else s.vvTried[h.TriedSlot(r.service) := s.nIdCount], nTried := s.nTried + 1)
  {
    EnteredIs(s, r);
    var id := s.nIdCount;
    assert s.mapInfo[id := FromRecord(r, |s.vRandom|, false)][id := FromRecord(r, |s.vRandom|, true)] ==
      s.mapInfo[id := FromRecord(r, |s.vRandom|, true)];
  }

  method ReadBuckets(a: CAddrMan, d: Disk)
    requires a.Shaped() && Readable(d) && a.Abs() == Entries(a.hashes, d) && Placed(a.Abs())
    requires forall i :: 0 <= i < |d.news| ==> i in a.mapInfo
    modifies a`mapInfo, a.vvNew
    ensures a.Abs() == Tables(a.hashes, d) && Placed(a.Abs())
  {
    hide Occupied, Placed, Entries, BucketRead;
    ghost var base := a.Abs();
    for bucket := 0 to |d.buckets|
      invariant a.Abs() == BucketsRead(a.hashes, Legacy(d), |d.news|, base, d.buckets[..bucket]) && Placed(a.Abs())
      invariant a.mapInfo.Keys == base.mapInfo.Keys
    {
      PrefixOf(d.buckets, bucket);
      ReadBucket(a, d, bucket);
    }
    assert d.buckets[..|d.buckets|] == d.buckets;
  }

  method ReadBucket(a: CAddrMan, d: Disk, bucket: nat)
    requires a.Shaped() && Readable(d) && bucket < |d.buckets| && Placed(a.Abs())
    requires forall i :: 0 <= i < |d.news| ==> i in a.mapInfo
    modifies a`mapInfo, a.vvNew
    ensures a.Abs() == BucketRead(a.hashes, Legacy(d), |d.news|, old(a.Abs()), bucket, d.buckets[bucket])
    ensures Placed(a.Abs()) && a.mapInfo.Keys == old(a.mapInfo.Keys)
  {
    hide Occupied, Placed, IndexRead;
    ghost var s := a.Abs();
    var indices := d.buckets[bucket];
    for n := 0 to |indices|
      invariant a.Abs() == BucketRead(a.hashes, Legacy(d), |d.news|, s, bucket, indices[..n]) && Placed(a.Abs())
      invariant a.mapInfo.Keys == s.mapInfo.Keys
    {
      PrefixOf(indices, n);
      IndexPlaced(a.hashes, Legacy(d), |d.news|, a.Abs(), bucket, indices[n]);
      ReadIndex(a, d, bucket, indices[n]);
    }
    assert indices[..|indices|] == indices;
  }

  method ReadIndex(a: CAddrMan, d: Disk, bucket: nat, nIndex: int)
    requires a.Shaped() && Readable(d) && bucket < |d.buckets|
    requires forall i :: 0 <= i < |d.news| ==> i in a.mapInfo
    modifies a`mapInfo, a.vvNew
    ensures a.Abs() == IndexRead(a.hashes, Legacy(d), |d.news|, old(a.Abs()), bucket, nIndex)
  {
    hide Occupied;
    if nIndex >= 0 && nIndex < d.nNew {
      var info := a.mapInfo[nIndex];
      var nUBucketPos := a.hashes.Position(info.service, true, bucket);
      if d.nVersion == 1 && BucketsOf(d) == NEW_BUCKET_COUNT {
        SlotRead(a.vvNew, bucket, nUBucketPos);
        if a.vvNew[bucket, nUBucketPos] == -1 && info.nRefCount < NEW_BUCKETS_PER_ADDRESS {
          a.mapInfo := a.mapInfo[nIndex := info.(nRefCount := info.nRefCount + 1)];
          SetSlot(a.vvNew, bucket, nUBucketPos, nIndex);
        }
      }
    }
  }

  /** Delete's own assertions hold at every call of the pruning loop, whatever the disk said. */
  method Prune(a: CAddrMan)
    requires a.Shaped() && Placed(a.Abs())
    modifies a
    ensures a.Abs() == Pruned(old(a.Abs()), Upto(old(a.nIdCount)))
  {
    hide Occupied, Placed, Deleted, Deletable;
    ghost var s := a.Abs();
    var n := Max(0, a.nIdCount);
    for id := 0 to n
      invariant a.Abs() == Pruned(s, Upto(n)[..id]) && Placed(a.Abs())
    {
      PrefixOf(Upto(n), id);
      if id in a.mapInfo && !a.mapInfo[id].fInTried && a.mapInfo[id].nRefCount == 0 {
        PlacedCanDelete(a.Abs(), id);
        DeletedPlaced(a.Abs(), id);
        a.Delete(id);
      }
    }
    assert Upto(n)[..n] == Upto(n);
  }
}
