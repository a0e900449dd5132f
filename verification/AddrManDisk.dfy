/**
  What the address manager writes to disk and how it reads it back. A `Disk` is the sequence of
  values in the stream, in order; the byte encoding of each value is not modelled.
  */
module AddrManDisk {
  import opened Arith
  import opened AddrManState
  import O = AddrManOps

  /** The fields of CAddrInfo that its SerializationOp writes. */
  datatype Record = Record(service: Service, nServices: set<nat>, nTime: int, source: NetAddr, nLastSuccess: int, nAttempts: int)

  datatype Disk = Disk(
    nVersion: int,
    nKeySize: int,
    nNew: int,
    nTried: int,
    nUBuckets: int,
    news: seq<Record>,
    trieds: seq<Record>,
    buckets: seq<seq<int>>)

  /** The reader takes as many entries and buckets as the header announces, none for a negative count. */
  predicate Readable(d: Disk) {
    d.nKeySize == 32 && |d.news| == Max(0, d.nNew) && |d.trieds| == Max(0, d.nTried) && |d.buckets| == Max(0, BucketsOf(d))
  }

  /** A stream holds no more than its header announces, and nothing after the place where it is cut off. */
  predicate Streamed(d: Disk) {
    && |d.news| <= Max(0, d.nNew) && |d.trieds| <= Max(0, d.nTried) && |d.buckets| <= Max(0, BucketsOf(d))
    && (|d.news| < Max(0, d.nNew) ==> d.trieds == [] && d.buckets == [])
    && (|d.trieds| < Max(0, d.nTried) ==> d.buckets == [])
  }

  const BIT30 := 0x4000_0000

  /** nUBuckets ^ (1 << 30) */
  function FlipBit30(n: int): int {
    if n / BIT30 % 2 == 0 then n + BIT30 else n - BIT30
  }

  function BucketsOf(d: Disk): int {
    if d.nVersion != 0 then FlipBit30(d.nUBuckets) else d.nUBuckets
  }

  /** The new table on disk cannot be used as it is. */
  predicate Legacy(d: Disk) {
    d.nVersion != 1 || BucketsOf(d) != NEW_BUCKET_COUNT
  }

  function RecordOf(info: Info): Record {
    Record(info.service, info.nServices, info.nTime, info.source, info.nLastSuccess, info.nAttempts)
  }

  // ----- Writing -----

  /** std::map iterates its keys in ascending order. */
  ghost predicate Enumerates(order: seq<int>, s: AddrMan) {
    && (forall i, j :: 0 <= i < j < |order| ==> order[i] < order[j])
    && (forall id :: id in order <==> id in s.mapInfo)
  }

  predicate Known(s: AddrMan, ids: seq<int>) {
    forall i :: 0 <= i < |ids| ==> ids[i] in s.mapInfo
  }

  /** The ids among the given ones with a reference in the new table. */
  function WithRefs(s: AddrMan, ids: seq<int>): (r: seq<int>)
    requires Known(s, ids)
    ensures Known(s, r)
  {
    if ids == [] then [] else
      var n := |ids| - 1;
      WithRefs(s, ids[..n]) + if s.mapInfo[ids[n]].nRefCount != 0 then [ids[n]] else []
  }

  function InTried(s: AddrMan, ids: seq<int>): (r: seq<int>)
    requires Known(s, ids)
    ensures Known(s, r)
  {
    if ids == [] then [] else
      var n := |ids| - 1;
      InTried(s, ids[..n]) + if s.mapInfo[ids[n]].fInTried then [ids[n]] else []
  }

  /** mapUnkIds: for each id, the number of entries written before it. */
  function UnkIds(s: AddrMan, ids: seq<int>): (m: map<int, int>)
    requires Known(s, ids)
  {
    if ids == [] then map[] else
      var n := |ids| - 1;
      UnkIds(s, ids[..n])[ids[n] := |WithRefs(s, ids[..n])|]
  }

  function Records(s: AddrMan, ids: seq<int>): (r: seq<Record>)
    requires Known(s, ids)
    ensures |r| == |ids|
  {
    seq(|ids|, i requires 0 <= i < |ids| => RecordOf(s.mapInfo[ids[i]]))
  }

  /** The ids in one bucket, by position. */
  function BucketIds(t: Table, b: nat, p: nat): seq<int> {
    if p == 0 then [] else BucketIds(t, b, p - 1) + if (b, p - 1) in t then [t[(b, p - 1)]] else []
  }

  /** A number that the map does not hold reads as 0. */
  function Rename(m: map<int, int>, ids: seq<int>): seq<int> {
    seq(|ids|, i requires 0 <= i < |ids| => if ids[i] in m then m[ids[i]] else 0)
  }

  function BucketsOnDisk(m: map<int, int>, t: Table, b: nat): (r: seq<seq<int>>)
    ensures |r| == b
  {
    seq(b, i requires 0 <= i < b => Rename(m, BucketIds(t, i, BUCKET_SIZE)))
  }

  function Save(s: AddrMan, order: seq<int>): Disk
    requires Known(s, order)
  {
    Disk(1, 32, s.nNew, s.nTried, FlipBit30(NEW_BUCKET_COUNT), Records(s, WithRefs(s, order)), Records(s, InTried(s, order)),
         BucketsOnDisk(UnkIds(s, order), s.vvNew, NEW_BUCKET_COUNT))
  }

  // ----- Reading -----

  /** A record becomes an entry of the new table, without references so far. */
  function Entered(s: AddrMan, r: Record): AddrMan {
    var id := s.nIdCount;
    var c := Created(s, Address(r.service, r.nServices, Max(0, r.nTime)), r.source);
    SetInfo(c, id, c.mapInfo[id].(nTime := r.nTime, nLastSuccess := r.nLastSuccess, nAttempts := r.nAttempts))
  }

  /** With a table that cannot be used, an entry is filed by its own source, if that slot is free. */
  function FiledAtHome(h: Hashes, s: AddrMan, id: int): AddrMan {
    if id !in s.mapInfo then s else
      var us := O.HomeSlot(h, s.mapInfo[id], s.mapInfo[id].source);
      if us !in s.vvNew then Ref(s, us, id) else s
  }

  function NewsRead(h: Hashes, legacy: bool, news: seq<Record>): AddrMan {
    if news == [] then Empty else
      var s := NewsRead(h, legacy, news[..|news| - 1]);
      var e := Entered(s, news[|news| - 1]);
      if legacy then FiledAtHome(h, e, s.nIdCount) else e
  }

  /** A record of a tried entry; lost if its slot is taken. */
  function TriedRead(h: Hashes, s: AddrMan, r: Record): (t: AddrMan) {
    if h.TriedSlot(r.service) in s.vvTried then s else
      var e := Entered(s, r);
      if s.nIdCount !in e.mapInfo then e
      else if s.nIdCount == -1 then ToTried(h, e, -1).(vvTried := e.vvTried)  // an id of -1 marks a free slot
      else ToTried(h, e, s.nIdCount)
  }

  function TriedsRead(h: Hashes, s: AddrMan, trieds: seq<Record>): AddrMan {
    if trieds == [] then s else TriedRead(h, TriedsRead(h, s, trieds[..|trieds| - 1]), trieds[|trieds| - 1])
  }

  /** One index of one bucket. */
  function IndexRead(h: Hashes, legacy: bool, nNew: int, s: AddrMan, b: nat, nIndex: int): AddrMan {
    if 0 <= nIndex < nNew && nIndex in s.mapInfo then
      var sl := h.NewSlot(s.mapInfo[nIndex].service, b);
      if !legacy && sl !in s.vvNew && s.mapInfo[nIndex].nRefCount < NEW_BUCKETS_PER_ADDRESS then Ref(s, sl, nIndex) else s
    else s
  }

  function BucketRead(h: Hashes, legacy: bool, nNew: int, s: AddrMan, b: nat, indices: seq<int>): AddrMan {
    if indices == [] then s
    else IndexRead(h, legacy, nNew, BucketRead(h, legacy, nNew, s, b, indices[..|indices| - 1]), b, indices[|indices| - 1])
  }

  function BucketsRead(h: Hashes, legacy: bool, nNew: int, s: AddrMan, buckets: seq<seq<int>>): AddrMan {
    if buckets == [] then s
    else
      var n := |buckets| - 1;
      BucketRead(h, legacy, nNew, BucketsRead(h, legacy, nNew, s, buckets[..n]), n, buckets[n])
  }

  /** The last loop: new entries without a reference are deleted. */
  function Pruned(s: AddrMan, ids: seq<int>): AddrMan {
    if ids == [] then s else
      var p, id := Pruned(s, ids[..|ids| - 1]), ids[|ids| - 1];
      if Prunable(p, id) && Deletable(p, id) then Deleted(p, id) else p
  }

  predicate Prunable(s: AddrMan, id: int) {
    id in s.mapInfo && !s.mapInfo[id].fInTried && s.mapInfo[id].nRefCount == 0
  }

  /** A negative count of new entries stays in nNew, and the ids of tried ones start there; so does one of tried entries in nTried. */
  function Entries(h: Hashes, d: Disk): AddrMan {
    var e := TriedsRead(h, NewsRead(h, Legacy(d), d.news).(nIdCount := d.nNew, nNew := d.nNew), d.trieds);
    if d.nTried < 0 then e.(nTried := d.nTried) else e
  }

  function Tables(h: Hashes, d: Disk): AddrMan {
    BucketsRead(h, Legacy(d), |d.news|, Entries(h, d), d.buckets)
  }

  function Upto(n: int): (r: seq<int>)
    ensures |r| == Max(0, n)
  {
    seq(Max(0, n), i => i)
  }

  /** Reading into a freshly constructed manager. The pruning goes through the ids in ascending order. */
  function Load(h: Hashes, d: Disk): AddrMan {
    Pruned(Tables(h, d), Upto(Tables(h, d).nIdCount))
  }

  // ----- The order of entries on disk -----

  ghost predicate Distinct(ids: seq<int>) {
    forall i, j :: 0 <= i < j < |ids| ==> ids[i] != ids[j]
  }

  lemma EnumeratesKnows(s: AddrMan, order: seq<int>)
    requires Enumerates(order, s)
    ensures Known(s, order) && Distinct(order)
  {
    forall i | 0 <= i < |order| ensures order[i] in s.mapInfo { assert order[i] in order; }
  }

  lemma {:induction false} WithRefsMembers(s: AddrMan, ids: seq<int>)
    requires Known(s, ids)
    ensures forall id :: id in WithRefs(s, ids) <==> id in ids && id in s.mapInfo && s.mapInfo[id].nRefCount != 0
    ensures forall id :: id in InTried(s, ids) <==> id in ids && id in s.mapInfo && s.mapInfo[id].fInTried
  {
    if ids != [] {
      var n := |ids| - 1;
      WithRefsMembers(s, ids[..n]);
      assert ids == ids[..n] + [ids[n]];
    }
  }

  lemma LastIsNew(ids: seq<int>)
    requires Distinct(ids) && |ids| > 0
    ensures ids[|ids| - 1] !in ids[..|ids| - 1] && Distinct(ids[..|ids| - 1])
    ensures ids == ids[..|ids| - 1] + [ids[|ids| - 1]]
  {}

  lemma {:induction false} WithRefsDistinct(s: AddrMan, ids: seq<int>)
    requires Known(s, ids) && Distinct(ids)
    ensures Distinct(WithRefs(s, ids)) && Distinct(InTried(s, ids))
  {
    if ids != [] {
      var n := |ids| - 1;
      LastIsNew(ids);
      WithRefsDistinct(s, ids[..n]);
      WithRefsMembers(s, ids[..n]);
    }
  }

  /** An id with references is found on disk at the index that mapUnkIds gives it. */
  lemma {:induction false} UnkIdIsIndex(s: AddrMan, ids: seq<int>, id: int)
    requires Known(s, ids) && Distinct(ids)
    requires id in ids && id in s.mapInfo && s.mapInfo[id].nRefCount != 0
    ensures id in UnkIds(s, ids)
    ensures 0 <= UnkIds(s, ids)[id] < |WithRefs(s, ids)| && WithRefs(s, ids)[UnkIds(s, ids)[id]] == id
  {
    var n := |ids| - 1;
    LastIsNew(ids);
    if id != ids[n] {
      UnkIdIsIndex(s, ids[..n], id);
    }
  }

  /** Distinct ids that are exactly a set's elements are as many. */
  lemma {:induction false} CountDistinct(ids: seq<int>, ofSet: set<int>)
    requires Distinct(ids) && forall id :: id in ids <==> id in ofSet
    ensures |ids| == |ofSet|
  {
    if ids == [] {
      forall id ensures id !in ofSet { assert id !in ids; }
      assert ofSet == {};
    } else {
      var n := |ids| - 1;
      LastIsNew(ids);
      assert ids[n] in ids;
      CountDistinct(ids[..n], ofSet - {ids[n]});
    }
  }

  lemma RefsTellKind(h: Hashes, s: AddrMan, id: int)
    requires Inv(h, s) && id in s.mapInfo
    ensures s.mapInfo[id].nRefCount != 0 <==> !s.mapInfo[id].fInTried
    ensures 0 <= s.mapInfo[id].nRefCount <= NEW_BUCKETS_PER_ADDRESS
  {
    assert RefOk(s, id) && LiveId(s.mapInfo[id], id in {});
    if s.mapInfo[id].fInTried {
      forall sl | sl in s.vvNew ensures s.vvNew[sl] != id { assert NewOk(h, s, sl); }
      assert SlotsOf(s.vvNew, id) == {};
    }
  }

  /** The ids in the order in which their entries are on disk. */
  function OnDisk(s: AddrMan, order: seq<int>): (ids: seq<int>)
    requires Known(s, order)
    ensures Known(s, ids)
  {
    WithRefs(s, order) + InTried(s, order)
  }

  lemma ListingAt(s: AddrMan, ids: seq<int>, k: nat)
    requires Listing(s, ids)
    ensures Known(s, ids) && s.nNew >= 0 && s.nTried >= 0 && |ids| == s.nNew + s.nTried
    ensures k < |ids| ==> ids[k] in s.mapInfo && s.mapInfo[ids[k]].fInTried == (k >= s.nNew)
  {}

  lemma KnownSlice(s: AddrMan, ids: seq<int>, a: nat, b: nat)
    requires Known(s, ids) && a <= b <= |ids|
    ensures Known(s, ids[a..b])
  {}

  /** The entries on disk: each one of the manager once, the new ones first, as many as the counters say. */
  ghost predicate Listing(s: AddrMan, ids: seq<int>) {
    && Known(s, ids) && Distinct(ids) && (forall id :: id in s.mapInfo ==> id in ids)
    && s.nNew >= 0 && s.nTried >= 0 && |ids| == s.nNew + s.nTried
    && (forall i :: 0 <= i < |ids| ==> s.mapInfo[ids[i]].fInTried == (i >= s.nNew))
  }

  lemma OnDiskIsListing(h: Hashes, s: AddrMan, order: seq<int>)
    requires Inv(h, s) && Enumerates(order, s)
    ensures Known(s, order) && Listing(s, OnDisk(s, order))
    ensures |WithRefs(s, order)| == s.nNew && |InTried(s, order)| == s.nTried
  {
    EnumeratesKnows(s, order);
    WithRefsMembers(s, order);
    WithRefsDistinct(s, order);
    var news, trieds := WithRefs(s, order), InTried(s, order);
    forall id | id in s.mapInfo ensures s.mapInfo[id].nRefCount != 0 <==> !s.mapInfo[id].fInTried {
      RefsTellKind(h, s, id);
    }
    CountDistinct(news, NewIds(s));
    CountDistinct(trieds, TriedIds(s));
    forall i | 0 <= i < |news| ensures !s.mapInfo[news[i]].fInTried { assert news[i] in news; }
    forall i | 0 <= i < |trieds| ensures s.mapInfo[trieds[i]].fInTried { assert trieds[i] in trieds; }
  }

  /** The writer's assertions: it never meets more entries of a kind than the header announced. */
  lemma NoMoreThanAnnounced(h: Hashes, s: AddrMan, order: seq<int>, n: nat)
    requires Inv(h, s) && Enumerates(order, s) && n < |order|
    ensures Known(s, order) && Known(s, order[..n])
    ensures s.mapInfo[order[n]].nRefCount != 0 ==> |WithRefs(s, order[..n])| < s.nNew
    ensures s.mapInfo[order[n]].fInTried ==> |InTried(s, order[..n])| < s.nTried
  {
    hide Inv, Listing, OnDisk, Enumerates;
    OnDiskIsListing(h, s, order);
    PrefixWritesLess(s, order, n + 1);
    assert order[..n + 1][..n] == order[..n];
  }

  lemma {:induction false} PrefixWritesLess(s: AddrMan, order: seq<int>, n: nat)
    requires Known(s, order) && n <= |order|
    ensures |WithRefs(s, order[..n])| <= |WithRefs(s, order)| && |InTried(s, order[..n])| <= |InTried(s, order)|
    decreases |order|
  {
    if n < |order| {
      PrefixWritesLess(s, order[..|order| - 1], n);
      assert order[..|order| - 1][..n] == order[..n];
    } else {
      assert order[..n] == order;
    }
  }

  // ----- Reading the entries -----

  /** The state after the first k entries: they have the ids 0 to k - 1, and no references yet. */
  ghost predicate Copied(h: Hashes, s: AddrMan, ids: seq<int>, k: nat, r: AddrMan)
    requires Known(s, ids) && k <= |ids|
  {
    && Core(h, r) && Live(r, r.mapInfo.Keys) && r.nIdCount == k && r.vvNew == map[]
    && r.nNew == (if k <= s.nNew then k else s.nNew) && r.nTried == (if k <= s.nNew then 0 else k - s.nNew)
    && CopiedEntries(s, ids, k, r.mapInfo)
  }

  ghost predicate CopiedEntries(s: AddrMan, ids: seq<int>, k: nat, m: map<int, Info>)
    requires Known(s, ids) && k <= |ids|
  {
    && (forall i :: i in m <==> 0 <= i < k)
    && (forall i {:trigger m[i]} :: 0 <= i < k ==> CopyOf(s.mapInfo[ids[i]], m[i]))
  }

  lemma CopiedEntriesGrow(s: AddrMan, ids: seq<int>, k: nat, m: map<int, Info>, copy: Info)
    requires Known(s, ids) && k < |ids| && CopiedEntries(s, ids, k, m) && CopyOf(s.mapInfo[ids[k]], copy)
    ensures CopiedEntries(s, ids, k + 1, m[k := copy])
  {}

  ghost predicate CopyOf(info: Info, copy: Info) {
    RecordOf(copy) == RecordOf(info) && copy.fInTried == info.fInTried
  }

  /** No two entries share an address, so a record's address is not yet known when it is read. */
  lemma NextIsUnknown(h: Hashes, s: AddrMan, ids: seq<int>, k: nat, r: AddrMan)
    requires Inv(h, s) && Listing(s, ids) && k < |ids| && Copied(h, s, ids, k, r)
    ensures s.mapInfo[ids[k]].service.ip !in r.mapAddr
  {
    var ip := s.mapInfo[ids[k]].service.ip;
    forall i | 0 <= i < k ensures r.mapInfo[i].service.ip != ip {
      assert CopyOf(s.mapInfo[ids[i]], r.mapInfo[i]);
      assert IdOk(s, ids[i]) && IdOk(s, ids[k]);
    }
    assert ip in r.mapAddr ==> AddrOk(r, ip);
  }

  /** No two tried entries share a slot, so the slot of a tried record is free when it is read. */
  lemma NextSlotIsFree(h: Hashes, s: AddrMan, ids: seq<int>, k: nat, r: AddrMan)
    requires Inv(h, s) && Listing(s, ids) && s.nNew <= k < |ids| && Copied(h, s, ids, k, r)
    ensures h.TriedSlot(s.mapInfo[ids[k]].service) !in r.vvTried
  {
    var sl := h.TriedSlot(s.mapInfo[ids[k]].service);
    forall i | 0 <= i < k && r.mapInfo[i].fInTried ensures h.TriedSlot(r.mapInfo[i].service) != sl {
      assert CopyOf(s.mapInfo[ids[i]], r.mapInfo[i]);
      assert ListedOk(h, s, ids[i]) && ListedOk(h, s, ids[k]);
    }
    assert sl in r.vvTried ==> TriedOk(h, r, sl);
  }

  lemma EnteredKeeps(h: Hashes, r: AddrMan, rec: Record)
    requires Core(h, r) && Live(r, r.mapInfo.Keys) && rec.service.ip !in r.mapAddr
    ensures var e := Entered(r, rec); var id := r.nIdCount;
      && Core(h, e) && Live(e, e.mapInfo.Keys) && id !in r.mapInfo
      && e == r.(nIdCount := id + 1, mapInfo := r.mapInfo[id := e.mapInfo[id]], mapAddr := e.mapAddr,
                 vRandom := e.vRandom, nNew := r.nNew + 1)
      && RecordOf(e.mapInfo[id]) == rec && !e.mapInfo[id].fInTried && e.mapInfo[id].nRefCount == 0
  {
    hide Core, Live;
    var id, addr := r.nIdCount, Address(rec.service, rec.nServices, Max(0, rec.nTime));
    CreatedKeeps(h, r, addr, rec.source, r.mapInfo.Keys);
    var c := Created(r, addr, rec.source);
    assert c.mapInfo.Keys == r.mapInfo.Keys + {id};
    TouchKeeps(h, c, id, c.mapInfo[id].(nTime := rec.nTime, nLastSuccess := rec.nLastSuccess, nAttempts := rec.nAttempts), c.mapInfo.Keys);
    assert Entered(r, rec).mapInfo.Keys == c.mapInfo.Keys;
  }

  lemma NewEntryCopied(h: Hashes, s: AddrMan, ids: seq<int>, k: nat, r: AddrMan)
    requires Inv(h, s) && Listing(s, ids) && k < s.nNew && Copied(h, s, ids, k, r)
    ensures Copied(h, s, ids, k + 1, Entered(r, RecordOf(s.mapInfo[ids[k]])))
  {
    hide Core, Live, Inv, Listing, Known, CopiedEntries, Entered;
    ListingAt(s, ids, k);
    NextIsUnknown(h, s, ids, k, r);
    var rec := RecordOf(s.mapInfo[ids[k]]);
    EnteredKeeps(h, r, rec);
    CopiedEntriesGrow(s, ids, k, r.mapInfo, Entered(r, rec).mapInfo[k]);
  }

  lemma TriedEntryCopied(h: Hashes, s: AddrMan, ids: seq<int>, k: nat, r: AddrMan)
    requires Inv(h, s) && Listing(s, ids) && s.nNew <= k < |ids| && Copied(h, s, ids, k, r)
    ensures Copied(h, s, ids, k + 1, TriedRead(h, r, RecordOf(s.mapInfo[ids[k]])))
  {
    hide Core, Live, Inv, Listing, Known, CopiedEntries, Entered;
    ListingAt(s, ids, k);
    NextIsUnknown(h, s, ids, k, r);
    NextSlotIsFree(h, s, ids, k, r);
    var rec := RecordOf(s.mapInfo[ids[k]]);
    EnteredKeeps(h, r, rec);
    var e := Entered(r, rec);
    assert e.mapInfo.Keys + {k} == e.mapInfo.Keys;
    ToTriedKeeps(h, e, k, e.mapInfo.Keys);
    var t := ToTried(h, e, k);
    assert t.mapInfo.Keys == e.mapInfo.Keys;
    assert t.mapInfo == r.mapInfo[k := t.mapInfo[k]];
    CopiedEntriesGrow(s, ids, k, r.mapInfo, t.mapInfo[k]);
  }

  lemma {:induction false} NewsCopied(h: Hashes, s: AddrMan, ids: seq<int>, k: nat)
    requires Inv(h, s) && Listing(s, ids) && k <= s.nNew
    ensures Copied(h, s, ids, k, NewsRead(h, false, Records(s, ids[..k])))
  {
    if k == 0 {
      O.ReachableStatesSatisfyInv(h, []);
    } else {
      NewsCopied(h, s, ids, k - 1);
      assert Records(s, ids[..k])[..k - 1] == Records(s, ids[..k - 1]);
      NewEntryCopied(h, s, ids, k - 1, NewsRead(h, false, Records(s, ids[..k - 1])));
    }
  }

  lemma {:induction false} TriedsCopied(h: Hashes, s: AddrMan, ids: seq<int>, k: nat, r: AddrMan)
    requires Inv(h, s) && Listing(s, ids) && k <= s.nTried && Copied(h, s, ids, s.nNew, r)
    ensures Copied(h, s, ids, s.nNew + k, TriedsRead(h, r, Records(s, ids[s.nNew..][..k])))
  {
    hide Inv, Copied, TriedRead;
    var trieds := ids[s.nNew..];
    if k > 0 {
      TriedsCopied(h, s, ids, k - 1, r);
      assert Records(s, trieds[..k])[..k - 1] == Records(s, trieds[..k - 1]);
      assert Records(s, trieds[..k])[k - 1] == RecordOf(s.mapInfo[ids[s.nNew + k - 1]]);
      TriedEntryCopied(h, s, ids, s.nNew + k - 1, TriedsRead(h, r, Records(s, trieds[..k - 1])));
    }
  }

  // ----- Reading the buckets -----

  /** In the order in which the buckets are on disk. */
  predicate Before(sl: Slot, b: nat, p: nat) {
    sl.0 < b || (sl.0 == b && sl.1 < p)
  }

  /** `u` holds the slots of `t` before position p of bucket b, with the ids renamed. */
  ghost predicate TablePart(t: Table, ids: seq<int>, b: nat, p: nat, u: Table) {
    && (forall sl :: sl in u <==> sl in t && Before(sl, b, p))
    && (forall sl :: sl in u ==> 0 <= u[sl] < |ids| && ids[u[sl]] == t[sl])
  }

  ghost predicate Filled(h: Hashes, s: AddrMan, ids: seq<int>, base: AddrMan, b: nat, p: nat, cur: AddrMan)
    requires Known(s, ids)
  {
    && Core(h, cur) && Live(cur, cur.mapInfo.Keys)
    && cur == base.(mapInfo := cur.mapInfo, vvNew := cur.vvNew)
    && CopiedEntries(s, ids, |ids|, cur.mapInfo)
    && TablePart(s.vvNew, ids, b, p, cur.vvNew)
  }

  /** While an entry's slots are still being read, it has fewer references than it had when written. */
  lemma RefsLeft(h: Hashes, s: AddrMan, ids: seq<int>, base: AddrMan, b: nat, p: nat, cur: AddrMan, nIndex: nat)
    requires Inv(h, s) && Listing(s, ids) && Filled(h, s, ids, base, b, p, cur) && nIndex < |ids|
    requires (b, p) in s.vvNew && s.vvNew[(b, p)] == ids[nIndex]
    ensures nIndex in cur.mapInfo && cur.mapInfo[nIndex].nRefCount < NEW_BUCKETS_PER_ADDRESS
  {
    assert RefOk(s, ids[nIndex]) && RefOk(cur, nIndex);
    RefsTellKind(h, s, ids[nIndex]);
    var all, some := SlotsOf(s.vvNew, ids[nIndex]), SlotsOf(cur.vvNew, nIndex);
    assert (b, p) in all;
    CountSubset(some, all - {(b, p)});
  }

  lemma {:induction false} CountSubset<T>(a: set<T>, b: set<T>)
    requires a <= b
    ensures |a| <= |b|
  {
    if a != {} {
      var x :| x in a;
      CountSubset(a - {x}, b - {x});
    }
  }

  lemma TablePartGrows(t: Table, ids: seq<int>, b: nat, p: nat, u: Table, nIndex: nat)
    requires TablePart(t, ids, b, p, u) && (b, p) in t && nIndex < |ids| && ids[nIndex] == t[(b, p)]
    ensures TablePart(t, ids, b, p + 1, u[(b, p) := nIndex])
  {}

  lemma CopiesTouched(s: AddrMan, ids: seq<int>, m: map<int, Info>, i: int, copy: Info)
    requires Known(s, ids) && CopiedEntries(s, ids, |ids|, m) && i in m
    requires RecordOf(copy) == RecordOf(m[i]) && copy.fInTried == m[i].fInTried
    ensures CopiedEntries(s, ids, |ids|, m[i := copy])
  {}

  lemma SlotIsFree(h: Hashes, s: AddrMan, ids: seq<int>, b: nat, p: nat, cur: AddrMan, nIndex: nat)
    requires Inv(h, s) && Listing(s, ids) && CopiedEntries(s, ids, |ids|, cur.mapInfo) && TablePart(s.vvNew, ids, b, p, cur.vvNew)
    requires nIndex < s.nNew && (b, p) in s.vvNew && s.vvNew[(b, p)] == ids[nIndex]
    ensures nIndex in cur.mapInfo && !cur.mapInfo[nIndex].fInTried
    ensures b < NEW_BUCKET_COUNT && (b, p) == h.NewSlot(cur.mapInfo[nIndex].service, b) && (b, p) !in cur.vvNew
  {
    assert NewOk(h, s, (b, p));
    assert CopyOf(s.mapInfo[ids[nIndex]], cur.mapInfo[nIndex]);
  }

  lemma SlotFilled(h: Hashes, s: AddrMan, ids: seq<int>, base: AddrMan, b: nat, p: nat, cur: AddrMan, nIndex: nat)
    requires Inv(h, s) && Listing(s, ids) && Filled(h, s, ids, base, b, p, cur) && nIndex < s.nNew
    requires (b, p) in s.vvNew && s.vvNew[(b, p)] == ids[nIndex]
    ensures Filled(h, s, ids, base, b, p + 1, IndexRead(h, false, s.nNew, cur, b, nIndex))
  {
    hide Core, Live, Inv, Listing, Known, CopiedEntries, TablePart;
    ListingAt(s, ids, nIndex);
    RefsLeft(h, s, ids, base, b, p, cur, nIndex);
    SlotIsFree(h, s, ids, b, p, cur, nIndex);
    TablePartGrows(s.vvNew, ids, b, p, cur.vvNew, nIndex);
    assert cur.mapInfo.Keys + {nIndex} == cur.mapInfo.Keys;
    RefKeeps(h, cur, (b, p), nIndex, cur.mapInfo.Keys);
    var r := Ref(cur, (b, p), nIndex);
    assert r.mapInfo.Keys == cur.mapInfo.Keys;
    CopiesTouched(s, ids, cur.mapInfo, nIndex, r.mapInfo[nIndex]);
  }

  /** The index that the writer puts for an id of the new table. */
  lemma WrittenIndex(h: Hashes, s: AddrMan, order: seq<int>, sl: Slot)
    requires Inv(h, s) && Enumerates(order, s) && sl in s.vvNew
    ensures Known(s, order)
    ensures var m, id := UnkIds(s, order), s.vvNew[sl];
      id in m && 0 <= m[id] < s.nNew && m[id] < |OnDisk(s, order)| && OnDisk(s, order)[m[id]] == id
  {
    OnDiskIsListing(h, s, order);
    EnumeratesKnows(s, order);
    assert NewOk(h, s, sl);
    RefsTellKind(h, s, s.vvNew[sl]);
    UnkIdIsIndex(s, order, s.vvNew[sl]);
  }

  lemma RenameLast(m: map<int, int>, ids: seq<int>, id: int)
    requires id in m
    ensures Rename(m, ids + [id]) == Rename(m, ids) + [m[id]]
  {}

  lemma NothingHere(h: Hashes, s: AddrMan, ids: seq<int>, base: AddrMan, b: nat, p: nat, cur: AddrMan)
    requires Known(s, ids) && Filled(h, s, ids, base, b, p, cur) && (b, p) !in s.vvNew
    ensures Filled(h, s, ids, base, b, p + 1, cur)
  {
    hide Core, Live, CopiedEntries;
    forall sl ensures sl in cur.vvNew <==> sl in s.vvNew && Before(sl, b, p + 1) {}
  }

  lemma {:induction false} BucketFilled(h: Hashes, s: AddrMan, order: seq<int>, base: AddrMan, b: nat, p: nat, cur: AddrMan)
    requires Inv(h, s) && Enumerates(order, s) && Known(s, order) && Filled(h, s, OnDisk(s, order), base, b, 0, cur)
    ensures Filled(h, s, OnDisk(s, order), base, b, p,
                   BucketRead(h, false, s.nNew, cur, b, Rename(UnkIds(s, order), BucketIds(s.vvNew, b, p))))
  {
    hide Inv, Filled, Enumerates, Known, OnDisk, Rename, IndexRead, UnkIds;
    if p == 0 {
      NoIndices(h, s.nNew, cur, b, UnkIds(s, order));
    } else {
      BucketFilled(h, s, order, base, b, p - 1, cur);
      var m, before := UnkIds(s, order), BucketIds(s.vvNew, b, p - 1);
      var w := BucketRead(h, false, s.nNew, cur, b, Rename(m, before));
      if (b, p - 1) in s.vvNew {
        OnDiskIsListing(h, s, order);
        WrittenIndex(h, s, order, (b, p - 1));
        var nIndex := m[s.vvNew[(b, p - 1)]];
        RenameLast(m, before, s.vvNew[(b, p - 1)]);
        assert (Rename(m, before) + [nIndex])[..|Rename(m, before) + [nIndex]| - 1] == Rename(m, before);
        SlotFilled(h, s, OnDisk(s, order), base, b, p - 1, w, nIndex);
      } else {
        assert before + [] == before;
        NothingHere(h, s, OnDisk(s, order), base, b, p - 1, w);
      }
    }
  }

  lemma NoIndices(h: Hashes, nNew: int, cur: AddrMan, b: nat, m: map<int, int>)
    ensures BucketRead(h, false, nNew, cur, b, Rename(m, [])) == cur
  {}

  lemma BucketEnds(h: Hashes, s: AddrMan, ids: seq<int>, base: AddrMan, b: nat, cur: AddrMan)
    requires Inv(h, s) && Known(s, ids) && Filled(h, s, ids, base, b, BUCKET_SIZE, cur)
    ensures Filled(h, s, ids, base, b + 1, 0, cur)
  {
    forall sl | sl in s.vvNew ensures sl.1 < BUCKET_SIZE { assert NewOk(h, s, sl); }
    hide Core, Live, CopiedEntries, Inv;
  }

  lemma {:induction false} BucketsFilled(h: Hashes, s: AddrMan, order: seq<int>, base: AddrMan, b: nat)
    requires Inv(h, s) && Enumerates(order, s) && Known(s, order) && Filled(h, s, OnDisk(s, order), base, 0, 0, base)
    ensures Filled(h, s, OnDisk(s, order), base, b, 0, BucketsRead(h, false, s.nNew, base, BucketsOnDisk(UnkIds(s, order), s.vvNew, b)))
  {
    hide Inv, Filled, Enumerates, Known, OnDisk, UnkIds, BucketRead;
    if b > 0 {
      BucketsFilled(h, s, order, base, b - 1);
      var all := BucketsOnDisk(UnkIds(s, order), s.vvNew, b);
      assert all[..b - 1] == BucketsOnDisk(UnkIds(s, order), s.vvNew, b - 1);
      var w := BucketsRead(h, false, s.nNew, base, all[..b - 1]);
      BucketFilled(h, s, order, base, b - 1, BUCKET_SIZE, w);
      BucketEnds(h, s, OnDisk(s, order), base, b - 1, BucketRead(h, false, s.nNew, w, b - 1, all[b - 1]));
    }
  }

  // ----- The round trip -----

  /** `r` is `s` with the id ids[i] renamed to i: the same entries, addresses and tables. */
  ghost predicate SameUpToIds(s: AddrMan, r: AddrMan, ids: seq<int>) {
    && Listing(s, ids) && CopiedEntries(s, ids, |ids|, r.mapInfo)
    && (forall i {:trigger r.mapInfo[i]} :: 0 <= i < |ids| ==> i in r.mapInfo && r.mapInfo[i].nRefCount == s.mapInfo[ids[i]].nRefCount)
    && SameTable(s.vvNew, r.vvNew, ids) && SameTable(s.vvTried, r.vvTried, ids)
    && SameAddresses(s.mapAddr, r.mapAddr, ids)
    && r.nNew == s.nNew && r.nTried == s.nTried && |r.vRandom| == |s.vRandom|
  }

  ghost predicate SameTable(t: Table, u: Table, ids: seq<int>) {
    && (forall sl :: sl in u <==> sl in t)
    && (forall sl :: sl in u ==> 0 <= u[sl] < |ids| && ids[u[sl]] == t[sl])
  }

  ghost predicate SameAddresses(t: map<NetAddr, int>, u: map<NetAddr, int>, ids: seq<int>) {
    && (forall a :: a in u <==> a in t)
    && (forall a :: a in u ==> 0 <= u[a] < |ids| && ids[u[a]] == t[a])
  }

  /** Where the entry of a known id is in the listing. */
  lemma PlaceOf(s: AddrMan, ids: seq<int>, id: int) returns (i: nat)
    requires Listing(s, ids) && id in s.mapInfo
    ensures i < |ids| && ids[i] == id
  {
    assert id in ids;
    i :| i < |ids| && ids[i] == id;
  }

  lemma SameTried(h: Hashes, s: AddrMan, r: AddrMan, ids: seq<int>)
    requires Inv(h, s) && Core(h, r) && Listing(s, ids) && CopiedEntries(s, ids, |ids|, r.mapInfo)
    ensures SameTable(s.vvTried, r.vvTried, ids)
  {
    forall sl | sl in r.vvTried ensures sl in s.vvTried && 0 <= r.vvTried[sl] < |ids| && ids[r.vvTried[sl]] == s.vvTried[sl] {
      assert TriedOk(h, r, sl);
      var i := r.vvTried[sl];
      assert CopyOf(s.mapInfo[ids[i]], r.mapInfo[i]);
      assert ListedOk(h, s, ids[i]);
    }
    forall sl | sl in s.vvTried ensures sl in r.vvTried {
      assert TriedOk(h, s, sl);
      var i := PlaceOf(s, ids, s.vvTried[sl]);
      assert CopyOf(s.mapInfo[ids[i]], r.mapInfo[i]);
      assert ListedOk(h, r, i);
    }
  }

  lemma SameAddrs(h: Hashes, s: AddrMan, r: AddrMan, ids: seq<int>)
    requires Inv(h, s) && Core(h, r) && Listing(s, ids) && CopiedEntries(s, ids, |ids|, r.mapInfo)
    ensures SameAddresses(s.mapAddr, r.mapAddr, ids)
  {
    forall a | a in r.mapAddr ensures a in s.mapAddr && 0 <= r.mapAddr[a] < |ids| && ids[r.mapAddr[a]] == s.mapAddr[a] {
      assert AddrOk(r, a);
      var i := r.mapAddr[a];
      assert CopyOf(s.mapInfo[ids[i]], r.mapInfo[i]);
      assert IdOk(s, ids[i]);
    }
    forall a | a in s.mapAddr ensures a in r.mapAddr {
      assert AddrOk(s, a);
      var i := PlaceOf(s, ids, s.mapAddr[a]);
      assert CopyOf(s.mapInfo[ids[i]], r.mapInfo[i]);
      assert IdOk(r, i);
    }
  }

  /** With the same new table, the reference counts come out the same. */
  lemma SameRefCount(h: Hashes, s: AddrMan, r: AddrMan, ids: seq<int>, i: nat)
    requires Inv(h, s) && Core(h, r) && Listing(s, ids) && CopiedEntries(s, ids, |ids|, r.mapInfo)
    requires SameTable(s.vvNew, r.vvNew, ids) && i < |ids|
    ensures r.mapInfo[i].nRefCount == s.mapInfo[ids[i]].nRefCount
  {
    assert RefOk(s, ids[i]) && RefOk(r, i);
    assert SlotsOf(s.vvNew, ids[i]) == SlotsOf(r.vvNew, i);
  }

  lemma LiveAgain(h: Hashes, s: AddrMan, r: AddrMan, ids: seq<int>)
    requires Inv(h, s) && Core(h, r) && Listing(s, ids) && CopiedEntries(s, ids, |ids|, r.mapInfo)
    requires SameTable(s.vvNew, r.vvNew, ids)
    ensures Inv(h, r)
  {
    forall i | i in r.mapInfo ensures LiveId(r.mapInfo[i], i in {}) {
      SameRefCount(h, s, r, ids, i);
      assert CopyOf(s.mapInfo[ids[i]], r.mapInfo[i]);
      RefsTellKind(h, s, ids[i]);
    }
  }

  lemma AllSlotsRead(h: Hashes, s: AddrMan, ids: seq<int>, u: Table)
    requires Inv(h, s) && TablePart(s.vvNew, ids, NEW_BUCKET_COUNT, 0, u)
    ensures SameTable(s.vvNew, u, ids)
  {
    forall sl | sl in s.vvNew ensures Before(sl, NEW_BUCKET_COUNT, 0) { assert NewOk(h, s, sl); }
  }

  /** Exclusive-or with the same bit twice: the reader gets the bucket count back. */
  lemma FlipTwice(n: nat)
    requires n < BIT30
    ensures FlipBit30(FlipBit30(n)) == n
  {}

  /** The header and the two lists of entries, as the reader finds them. */
  lemma SavedHeader(h: Hashes, s: AddrMan, order: seq<int>)
    requires Inv(h, s) && Enumerates(order, s)
    ensures Known(s, order) && Listing(s, OnDisk(s, order))
    ensures var d, ids := Save(s, order), OnDisk(s, order);
      && Readable(d) && !Legacy(d) && |d.news| == d.nNew == s.nNew && d.nTried == s.nTried
      && d.news == Records(s, ids[..s.nNew]) && d.trieds == Records(s, ids[s.nNew..][..s.nTried])
      && d.buckets == BucketsOnDisk(UnkIds(s, order), s.vvNew, NEW_BUCKET_COUNT)
  {
    OnDiskIsListing(h, s, order);
    FlipTwice(NEW_BUCKET_COUNT);
    hide Inv, Core, Live, Enumerates, Listing, Known, WithRefs, InTried, UnkIds, BucketsOnDisk, Records, FlipBit30;
    Joined(WithRefs(s, order), InTried(s, order));
  }

  lemma Joined(a: seq<int>, b: seq<int>)
    ensures (a + b)[..|a|] == a && (a + b)[|a|..][..|b|] == b
  {}

  lemma NewsCount(h: Hashes, s: AddrMan, ids: seq<int>, r: AddrMan)
    requires Known(s, ids) && 0 <= s.nNew <= |ids| && Copied(h, s, ids, s.nNew, r)
    ensures r.nIdCount == r.nNew == s.nNew
  {}

  lemma EntriesOfSave(h: Hashes, s: AddrMan, order: seq<int>)
    requires Inv(h, s) && Enumerates(order, s)
    ensures Known(s, order) && Copied(h, s, OnDisk(s, order), |OnDisk(s, order)|, Entries(h, Save(s, order)))
  {
    hide Inv, Enumerates, Listing, Known, OnDisk, NewsRead, TriedsRead, Records, Save, Legacy, Copied, Readable, WithRefs, InTried;
    SavedHeader(h, s, order);
    var ids, d := OnDisk(s, order), Save(s, order);
    ListingAt(s, ids, 0);
    KnownSlice(s, ids, 0, s.nNew);
    KnownSlice(s, ids, s.nNew, |ids|);
    KnownSlice(s, ids[s.nNew..], 0, s.nTried);
    NewsCopied(h, s, ids, s.nNew);
    var base := NewsRead(h, false, d.news);
    NewsCount(h, s, ids, base);
    assert base.(nIdCount := d.nNew, nNew := d.nNew) == base;
    TriedsCopied(h, s, ids, s.nTried, base);
  }

  /** Before the pruning everything is back. */
  lemma TablesOfSave(h: Hashes, s: AddrMan, order: seq<int>)
    requires Inv(h, s) && Enumerates(order, s)
    ensures Known(s, order) && Readable(Save(s, order))
    ensures var r := Tables(h, Save(s, order)); Inv(h, r) && SameUpToIds(s, r, OnDisk(s, order))
  {
    hide Inv, Enumerates, Listing, OnDisk, Entries, Save, Legacy, Copied, Readable, BucketsRead, BucketsOnDisk, UnkIds, SameUpToIds, Filled, Known;
    SavedHeader(h, s, order);
    EntriesOfSave(h, s, order);
    var ids, d := OnDisk(s, order), Save(s, order);
    var e := Entries(h, d);
    EntriesStart(h, s, ids, e);
    BucketsFilled(h, s, order, e, NEW_BUCKET_COUNT);
    AllBack(h, s, ids, e, Tables(h, d));
  }

  lemma EntriesStart(h: Hashes, s: AddrMan, ids: seq<int>, e: AddrMan)
    requires Known(s, ids) && Copied(h, s, ids, |ids|, e)
    ensures Filled(h, s, ids, e, 0, 0, e)
  {
    hide Core, Live, CopiedEntries;
  }

  lemma AllBack(h: Hashes, s: AddrMan, ids: seq<int>, e: AddrMan, r: AddrMan)
    requires Inv(h, s) && Listing(s, ids) && Copied(h, s, ids, |ids|, e)
    requires Filled(h, s, ids, e, NEW_BUCKET_COUNT, 0, r)
    ensures Inv(h, r) && SameUpToIds(s, r, ids)
  {
    AllSlotsRead(h, s, ids, r.vvNew);
    LiveAgain(h, s, r, ids);
    SameTried(h, s, r, ids);
    SameAddrs(h, s, r, ids);
    forall i | 0 <= i < |ids| ensures i in r.mapInfo && r.mapInfo[i].nRefCount == s.mapInfo[ids[i]].nRefCount {
      SameRefCount(h, s, r, ids, i);
    }
    SameLength(h, s, r);
  }

  lemma SameLength(h: Hashes, s: AddrMan, r: AddrMan)
    requires Core(h, s) && Core(h, r) && r.nNew == s.nNew && r.nTried == s.nTried
    ensures |r.vRandom| == |s.vRandom|
  {
    hide Indexed, Tabled, Referenced, Sizes;
    CountAll(s);
    CountAll(r);
  }

  lemma CountAll(s: AddrMan)
    requires Sizes(s)
    ensures |s.vRandom| == s.nNew + s.nTried
  {
    assert TriedIds(s) + NewIds(s) == s.mapInfo.Keys && TriedIds(s) !! NewIds(s);
    assert |s.mapInfo.Keys| == |s.mapInfo|;
  }

  /** Under the invariant every new entry has a reference, so the last loop prunes nothing. */
  lemma {:induction false} NothingPruned(h: Hashes, s: AddrMan, ids: seq<int>)
    requires Inv(h, s)
    ensures Pruned(s, ids) == s
  {
    if ids != [] {
      NothingPruned(h, s, ids[..|ids| - 1]);
      var id := ids[|ids| - 1];
      assert id in s.mapInfo ==> LiveId(s.mapInfo[id], id in {});
    }
  }

  /**
    Reading back what was written from any state satisfying the invariant gives the same manager up to the
    renaming of ids: nothing is lost or pruned, and the invariant holds again.
    */
  lemma LoadOfSave(h: Hashes, s: AddrMan, order: seq<int>)
    requires Inv(h, s) && Enumerates(order, s)
    ensures Known(s, order) && Readable(Save(s, order))
    ensures var r := Load(h, Save(s, order)); Inv(h, r) && SameUpToIds(s, r, OnDisk(s, order))
  {
    TablesOfSave(h, s, order);
    NothingPruned(h, Tables(h, Save(s, order)), Upto(Tables(h, Save(s, order)).nIdCount));
  }
}
