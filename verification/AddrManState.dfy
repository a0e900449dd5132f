/**
  The address manager's tables as values: the elementary changes addrman.cpp makes to them, and the
  invariant that its consistency check looks for. A bucket table is a map that holds only the
  occupied slots; the array of the class holds -1 elsewhere.
  */
module AddrManState {

  const TRIED_BUCKET_COUNT := 256
  const NEW_BUCKET_COUNT := 1024
  const BUCKET_SIZE := 64
  const NEW_BUCKETS_PER_ADDRESS := 8
  const HORIZON_DAYS := 30
  const RETRIES := 3
  const MAX_FAILURES := 10
  const MIN_FAIL_DAYS := 7

  /** CNetAddr: the 16 address bytes, kept as a number. */
  type NetAddr = nat

  datatype Service = Service(ip: NetAddr, port: nat)

  /** CAddress: what a peer tells about an address. The bits of nServices are kept as a set. */
  datatype Address = Address(service: Service, nServices: set<nat>, nTime: nat)

  /** CAddrInfo. */
  datatype Info = Info(
    service: Service,
    nServices: set<nat>,
    nTime: int,
    nLastTry: int,
    source: NetAddr,
    nLastSuccess: int,
    nAttempts: int,
    nRefCount: int,
    fInTried: bool,
    nRandomPos: int)
  {
    predicate IsTerrible(nNow: int) {
      if nLastTry != 0 && nLastTry >= nNow - 60 then false
      else if nTime > nNow + 10 * 60 then true
      else if nTime == 0 || nNow - nTime > HORIZON_DAYS * 24 * 60 * 60 then true
      else if nLastSuccess == 0 && nAttempts >= RETRIES then true
      else nNow - nLastSuccess > MIN_FAIL_DAYS * 24 * 60 * 60 && nAttempts >= MAX_FAILURES
    }

    /** Equal as far as the tables are concerned: only statistics differ. */
    predicate SameLinks(other: Info) {
      service == other.service && source == other.source && nRefCount == other.nRefCount &&
      fInTried == other.fInTried && nRandomPos == other.nRandomPos
    }
  }

  /** The keyed hashes behind the bucket functions, as arbitrary functions. */
  datatype Hashes = Hashes(
    tried: Service -> nat,
    new_: (Service, NetAddr) -> nat,
    position: (Service, bool, int) -> nat)
  {
    function TriedBucket(a: Service): nat { tried(a) % TRIED_BUCKET_COUNT }
    function NewBucket(a: Service, src: NetAddr): nat { new_(a, src) % NEW_BUCKET_COUNT }
    function Position(a: Service, fNew: bool, bucket: int): nat { position(a, fNew, bucket) % BUCKET_SIZE }
    function TriedSlot(a: Service): Slot { (TriedBucket(a), Position(a, false, TriedBucket(a))) }
    function NewSlot(a: Service, bucket: nat): Slot { (bucket, Position(a, true, bucket)) }
  }

  type Slot = (nat, nat)
  type Table = map<Slot, int>

  datatype AddrMan = AddrMan(
    nIdCount: int,
    mapInfo: map<int, Info>,
    mapAddr: map<NetAddr, int>,
    vRandom: seq<int>,
    nTried: int,
    vvTried: Table,
    nNew: int,
    vvNew: Table)

  const Empty := AddrMan(0, map[], map[], [], 0, map[], 0, map[])

  // ----- The invariant -----

  ghost function SlotsOf(t: Table, id: int): set<Slot> {
    set sl | sl in t && t[sl] == id
  }

  ghost function TriedIds(s: AddrMan): set<int> {
    set id | id in s.mapInfo && s.mapInfo[id].fInTried
  }

  ghost function NewIds(s: AddrMan): set<int> {
    set id | id in s.mapInfo && !s.mapInfo[id].fInTried
  }

  /** mapInfo, mapAddr and vRandom are mutually inverse: seen from an id, a place, an address. */
  ghost predicate IdOk(s: AddrMan, id: int)
    requires id in s.mapInfo
  {
    var info := s.mapInfo[id];
    && 0 <= id < s.nIdCount
    && info.service.ip in s.mapAddr && s.mapAddr[info.service.ip] == id
    && 0 <= info.nRandomPos < |s.vRandom| && s.vRandom[info.nRandomPos] == id
  }

  ghost predicate PosOk(s: AddrMan, i: int)
    requires 0 <= i < |s.vRandom|
  {
    s.vRandom[i] in s.mapInfo && s.mapInfo[s.vRandom[i]].nRandomPos == i
  }

  ghost predicate AddrOk(s: AddrMan, a: NetAddr)
    requires a in s.mapAddr
  {
    s.mapAddr[a] in s.mapInfo && s.mapInfo[s.mapAddr[a]].service.ip == a
  }

  ghost predicate Indexed(s: AddrMan) {
    && (forall id {:trigger IdOk(s, id)} :: id in s.mapInfo ==> IdOk(s, id))
    && (forall i {:trigger PosOk(s, i)} :: 0 <= i < |s.vRandom| ==> PosOk(s, i))
    && (forall a {:trigger AddrOk(s, a)} :: a in s.mapAddr ==> AddrOk(s, a))
    && s.nIdCount >= 0
  }

  /** A slot of the new table holds an entry that is not tried, at the entry's hash position. */
  ghost predicate NewOk(h: Hashes, s: AddrMan, sl: Slot)
    requires sl in s.vvNew
  {
    var id := s.vvNew[sl];
    sl.0 < NEW_BUCKET_COUNT && id in s.mapInfo && !s.mapInfo[id].fInTried && sl == h.NewSlot(s.mapInfo[id].service, sl.0)
  }

  ghost predicate TriedOk(h: Hashes, s: AddrMan, sl: Slot)
    requires sl in s.vvTried
  {
    var id := s.vvTried[sl];
    id in s.mapInfo && s.mapInfo[id].fInTried && sl == h.TriedSlot(s.mapInfo[id].service)
  }

  /** A tried entry is in the one tried slot that its hashes name. */
  ghost predicate ListedOk(h: Hashes, s: AddrMan, id: int)
    requires id in s.mapInfo
  {
    var sl := h.TriedSlot(s.mapInfo[id].service);
    s.mapInfo[id].fInTried ==> sl in s.vvTried && s.vvTried[sl] == id
  }

  ghost predicate Tabled(h: Hashes, s: AddrMan) {
    && (forall sl {:trigger NewOk(h, s, sl)} :: sl in s.vvNew ==> NewOk(h, s, sl))
    && (forall sl {:trigger TriedOk(h, s, sl)} :: sl in s.vvTried ==> TriedOk(h, s, sl))
    && (forall id {:trigger ListedOk(h, s, id)} :: id in s.mapInfo ==> ListedOk(h, s, id))
  }

  /** nRefCount is the number of occurrences in the new table. */
  ghost predicate RefOk(s: AddrMan, id: int)
    requires id in s.mapInfo
  {
    s.mapInfo[id].nRefCount == |SlotsOf(s.vvNew, id)|
  }

  ghost predicate Referenced(s: AddrMan) {
    forall id {:trigger RefOk(s, id)} :: id in s.mapInfo ==> RefOk(s, id)
  }

  ghost predicate Sizes(s: AddrMan) {
    s.nTried == |TriedIds(s)| && s.nNew == |NewIds(s)| && |s.vRandom| == |s.mapInfo|
  }

  /** Tables, reference counts and counters fit the entries, wherever their addresses lead. */
  ghost predicate Stocked(h: Hashes, s: AddrMan) {
    Tabled(h, s) && Referenced(s) && Sizes(s)
  }

  /** What the consistency check looks for, apart from how many buckets an entry is in. */
  ghost predicate Core(h: Hashes, s: AddrMan) {
    Indexed(s) && Stocked(h, s)
  }

  /** A new entry sits in 1 to 8 buckets, except for those in `loose`, which may be in none. */
  ghost predicate LiveId(info: Info, isLoose: bool) {
    !info.fInTried ==> info.nRefCount <= NEW_BUCKETS_PER_ADDRESS && (isLoose || info.nRefCount >= 1)
  }

  ghost predicate Live(s: AddrMan, loose: set<int>) {
    forall id :: id in s.mapInfo ==> LiveId(s.mapInfo[id], id in loose)
  }

  ghost predicate Inv(h: Hashes, s: AddrMan) {
    Core(h, s) && Live(s, {})
  }

  // ----- Elementary changes -----

  function SetInfo(s: AddrMan, id: int, info: Info): AddrMan {
    s.(mapInfo := s.mapInfo[id := info])
  }

  function Created(s: AddrMan, addr: Address, source: NetAddr): AddrMan {
    var id := s.nIdCount;
    s.(nIdCount := id + 1,
       mapInfo := s.mapInfo[id := Info(addr.service, addr.nServices, addr.nTime, 0, source, 0, 0, 0, false, |s.vRandom|)],
       mapAddr := s.mapAddr[addr.service.ip := id],
       vRandom := s.vRandom + [id],
       nNew := s.nNew + 1)
  }

  function Swapped(s: AddrMan, i: nat, j: nat): AddrMan
    requires Swappable(s, i, j)
  {
    if i == j then s else
    var a, b := s.vRandom[i], s.vRandom[j];
    var m := s.mapInfo[a := s.mapInfo[a].(nRandomPos := j)];
    s.(mapInfo := m[b := m[b].(nRandomPos := i)], vRandom := s.vRandom[i := b][j := a])
  }

  function Deleted(s: AddrMan, id: int): AddrMan
    requires Deletable(s, id)
  {
    Dropped(Swapped(s, s.mapInfo[id].nRandomPos, |s.vRandom| - 1), id)
  }

  /** One more reference to an entry, in a free slot of the new table. */
  function Ref(s: AddrMan, sl: Slot, id: int): AddrMan
    requires id in s.mapInfo
  {
    SetInfo(s, id, s.mapInfo[id].(nRefCount := s.mapInfo[id].nRefCount + 1)).(vvNew := s.vvNew[sl := id])
  }

  function Unref(s: AddrMan, sl: Slot): AddrMan
    requires sl in s.vvNew && s.vvNew[sl] in s.mapInfo
  {
    var id := s.vvNew[sl];
    SetInfo(s, id, s.mapInfo[id].(nRefCount := s.mapInfo[id].nRefCount - 1)).(vvNew := s.vvNew - {sl})
  }

  /** The entry leaves every bucket of the new table. */
  ghost function Unlisted(s: AddrMan, id: int): AddrMan
    requires id in s.mapInfo
  {
    SetInfo(s, id, s.mapInfo[id].(nRefCount := 0)).(vvNew := s.vvNew - SlotsOf(s.vvNew, id))
  }

  function ToTried(h: Hashes, s: AddrMan, id: int): AddrMan
    requires id in s.mapInfo
  {
    SetInfo(s, id, s.mapInfo[id].(fInTried := true)).(
      vvTried := s.vvTried[h.TriedSlot(s.mapInfo[id].service) := id], nTried := s.nTried + 1, nNew := s.nNew - 1)
  }

  function FromTried(h: Hashes, s: AddrMan, id: int): AddrMan
    requires id in s.mapInfo
  {
    SetInfo(s, id, s.mapInfo[id].(fInTried := false)).(
      vvTried := s.vvTried - {h.TriedSlot(s.mapInfo[id].service)}, nTried := s.nTried - 1, nNew := s.nNew + 1)
  }

  // ----- What a change leaves alone -----

  lemma SameIndex(s: AddrMan, s': AddrMan)
    requires Indexed(s) && s'.mapInfo.Keys == s.mapInfo.Keys
    requires forall id :: id in s.mapInfo ==>
      s'.mapInfo[id].service == s.mapInfo[id].service && s'.mapInfo[id].nRandomPos == s.mapInfo[id].nRandomPos
    requires s'.mapAddr == s.mapAddr && s'.vRandom == s.vRandom && s'.nIdCount == s.nIdCount
    ensures Indexed(s')
  {
    forall id | id in s'.mapInfo ensures IdOk(s', id) { assert IdOk(s, id); }
    forall i | 0 <= i < |s'.vRandom| ensures PosOk(s', i) {
      assert PosOk(s, i);
      var id := s.vRandom[i];
      assert id in s.mapInfo.Keys && s'.mapInfo[id].nRandomPos == s.mapInfo[id].nRandomPos;
    }
    forall a | a in s'.mapAddr ensures AddrOk(s', a) {
      assert AddrOk(s, a);
      var id := s.mapAddr[a];
      assert id in s.mapInfo.Keys && s'.mapInfo[id].service == s.mapInfo[id].service;
    }
  }

  ghost predicate SameKinds(s: AddrMan, s': AddrMan) {
    && s'.mapInfo.Keys == s.mapInfo.Keys
    && forall id :: id in s.mapInfo ==>
        s'.mapInfo[id].service == s.mapInfo[id].service && s'.mapInfo[id].fInTried == s.mapInfo[id].fInTried
  }

  lemma SameTables(h: Hashes, s: AddrMan, s': AddrMan)
    requires Tabled(h, s) && SameKinds(s, s') && s'.vvNew == s.vvNew && s'.vvTried == s.vvTried
    ensures Tabled(h, s')
  {
    forall sl | sl in s'.vvNew ensures NewOk(h, s', sl) { assert NewOk(h, s, sl); }
    forall sl | sl in s'.vvTried ensures TriedOk(h, s', sl) { assert TriedOk(h, s, sl); }
    forall id | id in s'.mapInfo ensures ListedOk(h, s', id) { assert ListedOk(h, s, id); }
  }

  lemma SameRefs(s: AddrMan, s': AddrMan)
    requires Referenced(s) && s'.vvNew == s.vvNew && s'.mapInfo.Keys <= s.mapInfo.Keys
    requires forall id :: id in s'.mapInfo ==> s'.mapInfo[id].nRefCount == s.mapInfo[id].nRefCount
    ensures Referenced(s')
  {
    forall id | id in s'.mapInfo ensures RefOk(s', id) { assert RefOk(s, id); }
  }

  lemma SameSizes(s: AddrMan, s': AddrMan)
    requires Sizes(s) && SameKinds(s, s')
    requires s'.nTried == s.nTried && s'.nNew == s.nNew && |s'.vRandom| == |s.vRandom|
    ensures Sizes(s')
  {
    forall id ensures id in TriedIds(s') <==> id in TriedIds(s) {
      assert id in s'.mapInfo.Keys <==> id in s.mapInfo.Keys;
    }
    forall id ensures id in NewIds(s') <==> id in NewIds(s) {
      assert id in s'.mapInfo.Keys <==> id in s.mapInfo.Keys;
    }
    assert TriedIds(s') == TriedIds(s) && NewIds(s') == NewIds(s);
    assert |s'.mapInfo| == |s'.mapInfo.Keys| == |s.mapInfo.Keys|;
  }

  // ----- Each elementary change keeps the core of the invariant -----

  lemma TouchStocked(h: Hashes, s: AddrMan, id: int, info: Info)
    requires Stocked(h, s) && id in s.mapInfo && info.SameLinks(s.mapInfo[id])
    ensures Stocked(h, SetInfo(s, id, info))
  {
    var s' := SetInfo(s, id, info);
    assert s'.mapInfo.Keys == s.mapInfo.Keys;
    SameTables(h, s, s');
    SameRefs(s, s');
    SameSizes(s, s');
  }

  /** Changing statistics only keeps everything. */
  lemma TouchKeeps(h: Hashes, s: AddrMan, id: int, info: Info, loose: set<int>)
    requires Core(h, s) && Live(s, loose) && id in s.mapInfo && info.SameLinks(s.mapInfo[id])
    ensures Core(h, SetInfo(s, id, info)) && Live(SetInfo(s, id, info), loose)
  {
    var s' := SetInfo(s, id, info);
    hide Stocked;
    assert s'.mapInfo.Keys == s.mapInfo.Keys;
    SameIndex(s, s');
    TouchStocked(h, s, id, info);
  }

  lemma FreshId(h: Hashes, s: AddrMan)
    requires Core(h, s)
    ensures s.nIdCount !in s.mapInfo && SlotsOf(s.vvNew, s.nIdCount) == {}
  {
    forall id | id in s.mapInfo ensures id < s.nIdCount { assert IdOk(s, id); }
    forall sl | sl in s.vvNew ensures s.vvNew[sl] != s.nIdCount { assert NewOk(h, s, sl); }
  }

  lemma CreatedIndexed(s: AddrMan, addr: Address, source: NetAddr)
    requires Indexed(s) && addr.service.ip !in s.mapAddr && s.nIdCount !in s.mapInfo
    ensures Indexed(Created(s, addr, source))
  {
    var id, s' := s.nIdCount, Created(s, addr, source);
    forall i | i in s'.mapInfo ensures IdOk(s', i) { if i != id { assert IdOk(s, i); } }
    forall i | 0 <= i < |s'.vRandom| ensures PosOk(s', i) { if i < |s.vRandom| { assert PosOk(s, i); } }
    forall a | a in s'.mapAddr ensures AddrOk(s', a) { if a != addr.service.ip { assert AddrOk(s, a); } }
  }

  lemma CreatedTabled(h: Hashes, s: AddrMan, addr: Address, source: NetAddr)
    requires Tabled(h, s) && s.nIdCount !in s.mapInfo
    ensures Tabled(h, Created(s, addr, source))
  {
    var id, s' := s.nIdCount, Created(s, addr, source);
    forall sl | sl in s'.vvNew ensures NewOk(h, s', sl) { assert NewOk(h, s, sl); }
    forall sl | sl in s'.vvTried ensures TriedOk(h, s', sl) { assert TriedOk(h, s, sl); }
    forall i | i in s'.mapInfo ensures ListedOk(h, s', i) { if i != id { assert ListedOk(h, s, i); } }
  }

  lemma CreatedStocked(h: Hashes, s: AddrMan, addr: Address, source: NetAddr)
    requires Stocked(h, s) && s.nIdCount !in s.mapInfo
    ensures Stocked(h, Created(s, addr, source))
  {
    var id, s' := s.nIdCount, Created(s, addr, source);
    CreatedTabled(h, s, addr, source);
    forall sl | sl in s.vvNew ensures s.vvNew[sl] != id { assert NewOk(h, s, sl); }
    assert SlotsOf(s.vvNew, id) == {};
    forall i | i in s'.mapInfo ensures RefOk(s', i) { if i != id { assert RefOk(s, i); } }
    CreatedSizes(s, addr, source);
  }

  lemma CreatedKeeps(h: Hashes, s: AddrMan, addr: Address, source: NetAddr, loose: set<int>)
    requires Core(h, s) && Live(s, loose) && addr.service.ip !in s.mapAddr
    ensures s.nIdCount !in s.mapInfo
    ensures Core(h, Created(s, addr, source)) && Live(Created(s, addr, source), loose + {s.nIdCount})
  {
    var id, s' := s.nIdCount, Created(s, addr, source);
    FreshId(h, s);
    CreatedIndexed(s, addr, source);
    CreatedStocked(h, s, addr, source);
    forall i | i in s'.mapInfo ensures LiveId(s'.mapInfo[i], i in loose + {id}) {
      assert i != id ==> LiveId(s.mapInfo[i], i in loose);
    }
  }

  lemma CreatedSizes(s: AddrMan, addr: Address, source: NetAddr)
    requires Sizes(s) && s.nIdCount !in s.mapInfo
    ensures Sizes(Created(s, addr, source))
  {
    var id, s' := s.nIdCount, Created(s, addr, source);
    assert s'.mapInfo.Keys == s.mapInfo.Keys + {id};
    assert TriedIds(s') == TriedIds(s);
    NewIdsGrow(s, s', id);
  }

  lemma NewIdsGrow(s: AddrMan, s': AddrMan, id: int)
    requires id !in s.mapInfo && id in s'.mapInfo && s'.mapInfo == s.mapInfo[id := s'.mapInfo[id]] && !s'.mapInfo[id].fInTried
    ensures NewIds(s') == NewIds(s) + {id} && |NewIds(s')| == |NewIds(s)| + 1
  {
    assert NewIds(s') == NewIds(s) + {id};
  }

  /** Both places hold known ids, so SwapRandom's assertions hold. */
  predicate Swappable(s: AddrMan, i: nat, j: nat) {
    i < |s.vRandom| && j < |s.vRandom| && s.vRandom[i] in s.mapInfo && s.vRandom[j] in s.mapInfo
  }

  lemma CanSwap(h: Hashes, s: AddrMan, i: nat, j: nat)
    requires Core(h, s) && i < |s.vRandom| && j < |s.vRandom|
    ensures Swappable(s, i, j)
  {
    assert PosOk(s, i) && PosOk(s, j);
  }

  /** Only the two entries' places change. */
  lemma SwappedAt(s: AddrMan, i: nat, j: nat)
    requires Swappable(s, i, j)
    requires s.mapInfo[s.vRandom[i]].nRandomPos == i && s.mapInfo[s.vRandom[j]].nRandomPos == j
    ensures Swapped(s, i, j).mapInfo.Keys == s.mapInfo.Keys
    ensures forall k :: k in s.mapInfo ==>
      Swapped(s, i, j).mapInfo[k] == s.mapInfo[k].(nRandomPos :=
        if k == s.vRandom[i] then j else if k == s.vRandom[j] then i else s.mapInfo[k].nRandomPos)
  {}

  lemma SwappedIndexed(s: AddrMan, i: nat, j: nat)
    requires Indexed(s) && Swappable(s, i, j)
    ensures Indexed(Swapped(s, i, j))
  {
    var s' := Swapped(s, i, j);
    assert PosOk(s, i) && PosOk(s, j);
    SwappedAt(s, i, j);
    forall k | k in s'.mapInfo ensures IdOk(s', k) { assert IdOk(s, k); }
    forall k | 0 <= k < |s'.vRandom| ensures PosOk(s', k) { assert PosOk(s, k); }
    forall a | a in s'.mapAddr ensures AddrOk(s', a) { assert AddrOk(s, a); }
  }

  lemma SwappedStocked(h: Hashes, s: AddrMan, i: nat, j: nat)
    requires Stocked(h, s) && Swappable(s, i, j)
    requires s.mapInfo[s.vRandom[i]].nRandomPos == i && s.mapInfo[s.vRandom[j]].nRandomPos == j
    ensures Stocked(h, Swapped(s, i, j))
  {
    var s' := Swapped(s, i, j);
    SwappedAt(s, i, j);
    SameTables(h, s, s');
    SameRefs(s, s');
    SameSizes(s, s');
  }

  lemma SwappedKeeps(h: Hashes, s: AddrMan, i: nat, j: nat, loose: set<int>)
    requires Core(h, s) && Live(s, loose) && Swappable(s, i, j)
    ensures Core(h, Swapped(s, i, j)) && Live(Swapped(s, i, j), loose)
  {
    var s' := Swapped(s, i, j);
    assert PosOk(s, i) && PosOk(s, j);
    SwappedAt(s, i, j);
    SwappedIndexed(s, i, j);
    SwappedStocked(h, s, i, j);
    forall k | k in s'.mapInfo ensures LiveId(s'.mapInfo[k], k in loose) { assert LiveId(s.mapInfo[k], k in loose); }
  }

  predicate Deletable(s: AddrMan, id: int) {
    && id in s.mapInfo && !s.mapInfo[id].fInTried && s.mapInfo[id].nRefCount == 0
    && 0 <= s.mapInfo[id].nRandomPos < |s.vRandom| && Swappable(s, s.mapInfo[id].nRandomPos, |s.vRandom| - 1)
  }

  lemma CanDelete(h: Hashes, s: AddrMan, id: int)
    requires Core(h, s) && id in s.mapInfo && !s.mapInfo[id].fInTried && s.mapInfo[id].nRefCount == 0
    ensures Deletable(s, id)
  {
    assert IdOk(s, id);
    CanSwap(h, s, s.mapInfo[id].nRandomPos, |s.vRandom| - 1);
  }

  /** Dropping the last place of vRandom together with its entry. */
  function Dropped(w: AddrMan, id: int): AddrMan
    requires id in w.mapInfo && |w.vRandom| > 0
  {
    w.(vRandom := w.vRandom[..|w.vRandom| - 1], mapAddr := w.mapAddr - {w.mapInfo[id].service.ip},
       mapInfo := w.mapInfo - {id}, nNew := w.nNew - 1)
  }

  lemma DroppedIndexed(w: AddrMan, id: int)
    requires Indexed(w) && id in w.mapInfo && |w.vRandom| > 0 && w.vRandom[|w.vRandom| - 1] == id
    ensures Indexed(Dropped(w, id))
  {
    var s' := Dropped(w, id);
    assert IdOk(w, id) && PosOk(w, |w.vRandom| - 1);
    forall i | i in s'.mapInfo ensures IdOk(s', i) { assert IdOk(w, i); }
    forall i | 0 <= i < |s'.vRandom| ensures PosOk(s', i) { assert PosOk(w, i); }
    forall a | a in s'.mapAddr ensures AddrOk(s', a) { assert AddrOk(w, a); }
  }

  lemma DroppedStocked(h: Hashes, w: AddrMan, id: int)
    requires Stocked(h, w) && id in w.mapInfo && !w.mapInfo[id].fInTried && w.mapInfo[id].nRefCount == 0 && |w.vRandom| > 0
    ensures Stocked(h, Dropped(w, id))
  {
    var s' := Dropped(w, id);
    assert RefOk(w, id);
    assert SlotsOf(w.vvNew, id) == {};
    forall sl | sl in s'.vvNew ensures NewOk(h, s', sl) { assert NewOk(h, w, sl); assert sl !in SlotsOf(w.vvNew, id); }
    forall sl | sl in s'.vvTried ensures TriedOk(h, s', sl) { assert TriedOk(h, w, sl); }
    forall i | i in s'.mapInfo ensures ListedOk(h, s', i) { assert ListedOk(h, w, i); }
    SameRefs(w, s');
    assert TriedIds(s') == TriedIds(w);
    assert NewIds(s') == NewIds(w) - {id};
    assert s'.mapInfo.Keys == w.mapInfo.Keys - {id};
  }

  lemma DroppedKeeps(h: Hashes, w: AddrMan, id: int, loose: set<int>)
    requires Core(h, w) && Live(w, loose) && id in w.mapInfo && !w.mapInfo[id].fInTried && w.mapInfo[id].nRefCount == 0
    requires |w.vRandom| > 0 && w.vRandom[|w.vRandom| - 1] == id
    ensures Core(h, Dropped(w, id)) && Live(Dropped(w, id), loose)
  {
    DroppedIndexed(w, id);
    DroppedStocked(h, w, id);
  }

  lemma DeletedKeeps(h: Hashes, s: AddrMan, id: int, loose: set<int>)
    requires Core(h, s) && Live(s, loose) && Deletable(s, id)
    ensures Core(h, Deleted(s, id)) && Live(Deleted(s, id), loose)
  {
    hide Indexed, Stocked, Live, Swapped;
    SwappedLast(s, id);
    DroppedAfterSwap(h, s, id, s.mapInfo[id].nRandomPos, |s.vRandom| - 1, loose);
  }

  lemma DroppedAfterSwap(h: Hashes, s: AddrMan, id: int, i: nat, j: nat, loose: set<int>)
    requires Core(h, s) && Live(s, loose) && Swappable(s, i, j)
    requires var w := Swapped(s, i, j);
      && id in w.mapInfo && !w.mapInfo[id].fInTried && w.mapInfo[id].nRefCount == 0
      && |w.vRandom| > 0 && w.vRandom[|w.vRandom| - 1] == id
    ensures Core(h, Dropped(Swapped(s, i, j), id)) && Live(Dropped(Swapped(s, i, j), id), loose)
  {
    SwappedKeeps(h, s, i, j, loose);
    DroppedKeeps(h, Swapped(s, i, j), id, loose);
  }

  /** After the swap the entry to delete is last in vRandom. */
  lemma SwappedLast(s: AddrMan, id: int)
    requires Indexed(s) && Deletable(s, id)
    ensures var w := Swapped(s, s.mapInfo[id].nRandomPos, |s.vRandom| - 1);
      && id in w.mapInfo && w.mapInfo[id] == s.mapInfo[id].(nRandomPos := |s.vRandom| - 1)
      && |w.vRandom| == |s.vRandom| && w.vRandom[|w.vRandom| - 1] == id
  {
    var i, j := s.mapInfo[id].nRandomPos, |s.vRandom| - 1;
    assert IdOk(s, id) && PosOk(s, i) && PosOk(s, j);
    SwappedAt(s, i, j);
  }

  /** Deleting an entry leaves the others as they were, up to their place in vRandom. */
  lemma DeletedSpares(s: AddrMan, id: int, i: int)
    requires Deletable(s, id) && i in s.mapInfo && i != id
    ensures i in Deleted(s, id).mapInfo
    ensures Deleted(s, id).mapInfo[i] == s.mapInfo[i].(nRandomPos := Deleted(s, id).mapInfo[i].nRandomPos)
  {}

  /** A change of the new table and of one reference count, judged by the slots of each id. */
  lemma RecountStocked(h: Hashes, s: AddrMan, s': AddrMan, id: int)
    requires Stocked(h, s) && id in s.mapInfo
    requires s' == s.(mapInfo := s.mapInfo[id := s.mapInfo[id].(nRefCount := |SlotsOf(s'.vvNew, id)|)], vvNew := s'.vvNew)
    requires forall i :: i != id ==> SlotsOf(s'.vvNew, i) == SlotsOf(s.vvNew, i)
    requires forall sl {:trigger NewOk(h, s', sl)} :: sl in s'.vvNew ==> NewOk(h, s', sl)
    ensures Stocked(h, s')
  {
    assert s'.mapInfo.Keys == s.mapInfo.Keys;
    SameSizes(s, s');
    forall i | i in s'.mapInfo ensures RefOk(s', i) { assert RefOk(s, i); }
    forall sl | sl in s'.vvTried ensures TriedOk(h, s', sl) { assert TriedOk(h, s, sl); }
    forall i | i in s'.mapInfo ensures ListedOk(h, s', i) { assert ListedOk(h, s, i); }
  }

  lemma RecountKeeps(h: Hashes, s: AddrMan, s': AddrMan, id: int, before: set<int>, after: set<int>)
    requires Core(h, s) && Live(s, before) && id in s.mapInfo && before - {id} <= after
    requires s' == s.(mapInfo := s.mapInfo[id := s.mapInfo[id].(nRefCount := |SlotsOf(s'.vvNew, id)|)], vvNew := s'.vvNew)
    requires forall i :: i != id ==> SlotsOf(s'.vvNew, i) == SlotsOf(s.vvNew, i)
    requires forall sl {:trigger NewOk(h, s', sl)} :: sl in s'.vvNew ==> NewOk(h, s', sl)
    requires LiveId(s'.mapInfo[id], id in after)
    ensures Core(h, s') && Live(s', after)
  {
    assert s'.mapInfo.Keys == s.mapInfo.Keys;
    SameIndex(s, s');
    RecountStocked(h, s, s', id);
    forall i | i in s'.mapInfo ensures LiveId(s'.mapInfo[i], i in after) {
      assert LiveId(s.mapInfo[i], i in before);
    }
  }

  lemma RefSlots(t: Table, sl: Slot, id: int)
    requires sl !in t
    ensures |SlotsOf(t[sl := id], id)| == |SlotsOf(t, id)| + 1
    ensures forall i :: i != id ==> SlotsOf(t[sl := id], i) == SlotsOf(t, i)
  {
    assert SlotsOf(t[sl := id], id) == SlotsOf(t, id) + {sl};
  }

  lemma UnrefSlots(t: Table, sl: Slot)
    requires sl in t
    ensures |SlotsOf(t, t[sl])| >= 1 && |SlotsOf(t - {sl}, t[sl])| == |SlotsOf(t, t[sl])| - 1
    ensures forall i :: i != t[sl] ==> SlotsOf(t - {sl}, i) == SlotsOf(t, i)
  {
    assert sl in SlotsOf(t, t[sl]);
    assert SlotsOf(t - {sl}, t[sl]) == SlotsOf(t, t[sl]) - {sl};
  }

  lemma RefStocked(h: Hashes, s: AddrMan, sl: Slot, id: int)
    requires Stocked(h, s) && id in s.mapInfo && !s.mapInfo[id].fInTried
    requires sl !in s.vvNew && sl.0 < NEW_BUCKET_COUNT && sl == h.NewSlot(s.mapInfo[id].service, sl.0)
    ensures Stocked(h, Ref(s, sl, id))
  {
    var s' := Ref(s, sl, id);
    assert RefOk(s, id);
    RefSlots(s.vvNew, sl, id);
    forall x | x in s'.vvNew ensures NewOk(h, s', x) { if x != sl { assert NewOk(h, s, x); } }
    RecountStocked(h, s, s', id);
  }

  lemma RefKeeps(h: Hashes, s: AddrMan, sl: Slot, id: int, loose: set<int>)
    requires Core(h, s) && Live(s, loose + {id}) && id in s.mapInfo && !s.mapInfo[id].fInTried
    requires s.mapInfo[id].nRefCount < NEW_BUCKETS_PER_ADDRESS
    requires sl !in s.vvNew && sl.0 < NEW_BUCKET_COUNT && sl == h.NewSlot(s.mapInfo[id].service, sl.0)
    ensures Core(h, Ref(s, sl, id)) && Live(Ref(s, sl, id), loose)
  {
    var s' := Ref(s, sl, id);
    assert RefOk(s, id);
    RefSlots(s.vvNew, sl, id);
    forall x | x in s'.vvNew ensures NewOk(h, s', x) { if x != sl { assert NewOk(h, s, x); } }
    RecountKeeps(h, s, s', id, loose + {id}, loose);
  }

  lemma UnrefKeeps(h: Hashes, s: AddrMan, sl: Slot, loose: set<int>)
    requires Core(h, s) && Live(s, loose) && sl in s.vvNew
    ensures s.vvNew[sl] in s.mapInfo && s.mapInfo[s.vvNew[sl]].nRefCount >= 1 && !s.mapInfo[s.vvNew[sl]].fInTried
    ensures Core(h, Unref(s, sl)) && Live(Unref(s, sl), loose + {s.vvNew[sl]})
  {
    assert NewOk(h, s, sl);
    var id, s' := s.vvNew[sl], Unref(s, sl);
    assert RefOk(s, id) && LiveId(s.mapInfo[id], id in loose);
    UnrefSlots(s.vvNew, sl);
    forall x | x in s'.vvNew ensures NewOk(h, s', x) { assert NewOk(h, s, x); }
    RecountKeeps(h, s, s', id, loose, loose + {id});
  }

  lemma UnlistedKeeps(h: Hashes, s: AddrMan, id: int, loose: set<int>)
    requires Core(h, s) && Live(s, loose) && id in s.mapInfo && !s.mapInfo[id].fInTried
    ensures Core(h, Unlisted(s, id)) && Live(Unlisted(s, id), loose + {id})
  {
    var s' := Unlisted(s, id);
    assert SlotsOf(s'.vvNew, id) == {};
    forall x | x in s'.vvNew ensures NewOk(h, s', x) { assert NewOk(h, s, x); }
    RecountKeeps(h, s, s', id, loose, loose + {id});
  }

  lemma ToTriedSizes(h: Hashes, s: AddrMan, id: int)
    requires Sizes(s) && id in s.mapInfo && !s.mapInfo[id].fInTried
    ensures Sizes(ToTried(h, s, id))
  {
    var s' := ToTried(h, s, id);
    assert TriedIds(s') == TriedIds(s) + {id};
    assert NewIds(s') == NewIds(s) - {id};
    assert s'.mapInfo.Keys == s.mapInfo.Keys;
  }

  lemma FromTriedSizes(h: Hashes, s: AddrMan, id: int)
    requires Sizes(s) && id in s.mapInfo && s.mapInfo[id].fInTried
    ensures Sizes(FromTried(h, s, id))
  {
    var s' := FromTried(h, s, id);
    assert TriedIds(s') == TriedIds(s) - {id};
    assert NewIds(s') == NewIds(s) + {id};
    assert s'.mapInfo.Keys == s.mapInfo.Keys;
  }

  lemma ToTriedStocked(h: Hashes, s: AddrMan, id: int)
    requires Stocked(h, s) && id in s.mapInfo && !s.mapInfo[id].fInTried
    requires s.mapInfo[id].nRefCount == 0 && h.TriedSlot(s.mapInfo[id].service) !in s.vvTried
    ensures Stocked(h, ToTried(h, s, id))
  {
    var s' := ToTried(h, s, id);
    assert s'.mapInfo.Keys == s.mapInfo.Keys;
    SameRefs(s, s');
    assert RefOk(s, id);
    assert SlotsOf(s.vvNew, id) == {};
    ToTriedSizes(h, s, id);
    forall sl | sl in s'.vvNew ensures NewOk(h, s', sl) { assert NewOk(h, s, sl); assert sl !in SlotsOf(s.vvNew, id); }
    forall sl | sl in s'.vvTried ensures TriedOk(h, s', sl) { if sl in s.vvTried { assert TriedOk(h, s, sl); } }
    forall i | i in s'.mapInfo ensures ListedOk(h, s', i) { assert ListedOk(h, s, i); }
  }

  lemma ToTriedKeeps(h: Hashes, s: AddrMan, id: int, loose: set<int>)
    requires Core(h, s) && Live(s, loose + {id}) && id in s.mapInfo && !s.mapInfo[id].fInTried
    requires s.mapInfo[id].nRefCount == 0 && h.TriedSlot(s.mapInfo[id].service) !in s.vvTried
    ensures Core(h, ToTried(h, s, id)) && Live(ToTried(h, s, id), loose)
  {
    var s' := ToTried(h, s, id);
    assert s'.mapInfo.Keys == s.mapInfo.Keys;
    SameIndex(s, s');
    ToTriedStocked(h, s, id);
    forall i | i in s'.mapInfo ensures LiveId(s'.mapInfo[i], i in loose) { assert LiveId(s.mapInfo[i], i in loose + {id}); }
  }

  lemma FromTriedKeeps(h: Hashes, s: AddrMan, id: int, loose: set<int>)
    requires Core(h, s) && Live(s, loose) && id in s.mapInfo && s.mapInfo[id].fInTried
    ensures s.mapInfo[id].nRefCount == 0
    ensures Core(h, FromTried(h, s, id)) && Live(FromTried(h, s, id), loose + {id})
  {
    var s' := FromTried(h, s, id);
    assert s'.mapInfo.Keys == s.mapInfo.Keys;
    SameIndex(s, s');
    SameRefs(s, s');
    assert RefOk(s, id) && ListedOk(h, s, id);
    forall sl | sl in s'.vvNew ensures NewOk(h, s', sl) && s.vvNew[sl] != id { assert NewOk(h, s, sl); }
    assert SlotsOf(s.vvNew, id) == {};
    FromTriedSizes(h, s, id);
    forall sl | sl in s'.vvTried ensures TriedOk(h, s', sl) { assert TriedOk(h, s, sl); }
    forall i | i in s'.mapInfo ensures ListedOk(h, s', i) { assert ListedOk(h, s, i); }
    forall i | i in s'.mapInfo ensures LiveId(s'.mapInfo[i], i in loose + {id}) { assert LiveId(s.mapInfo[i], i in loose); }
  }
}
