/**
  Files that no writer left as they are: of another version or bucket count, or damaged. What they load satisfies the
  invariant exactly if the counts are not negative and no entry that stays shares its address with another entry.
  */
module AddrManRecovery {
  import opened Arith
  import opened AddrManDisk
  import opened AddrManState
  import O = AddrManOps
  import Z = AddrManSerializer

  // ----- What the file says -----

  predicate SlotSeen(h: Hashes, trieds: seq<Record>, sl: Slot) {
    exists i :: 0 <= i < |trieds| && h.TriedSlot(trieds[i].service) == sl
  }

  /** The tried records that become entries: no earlier one has the same slot. */
  function FirstPerSlot(h: Hashes, trieds: seq<Record>): seq<Record> {
    if trieds == [] then [] else
      var n := |trieds| - 1;
      FirstPerSlot(h, trieds[..n]) + if SlotSeen(h, trieds[..n], h.TriedSlot(trieds[n].service)) then [] else [trieds[n]]
  }

  /** The records that become entries, in the order of their ids. */
  function EntryRecords(h: Hashes, d: Disk): seq<Record> {
    d.news + FirstPerSlot(h, d.trieds)
  }

  function HomeOf(h: Hashes, r: Record): Slot {
    h.NewSlot(r.service, h.NewBucket(r.service, r.source))
  }

  /** An earlier new record has the same home slot. */
  predicate HomeSeen(h: Hashes, news: seq<Record>, i: nat, sl: Slot)
    requires i <= |news|
  {
    exists j :: 0 <= j < i && HomeOf(h, news[j]) == sl
  }

  /** The first n indices of bucket b fill a slot: one of a record there that is in fewer than eight buckets before. */
  predicate Taken(h: Hashes, d: Disk, b: nat, n: nat, sl: Slot)
    requires b < |d.buckets| && n <= |d.buckets[b]|
    decreases b, 1, n
  {
    n > 0 && (Taken(h, d, b, n - 1, sl) || FillsLast(h, d, b, n, sl))
  }

  predicate FillsLast(h: Hashes, d: Disk, b: nat, n: nat, sl: Slot)
    requires b < |d.buckets| && 0 < n <= |d.buckets[b]|
    decreases b, 1, 0
  {
    var j := d.buckets[b][n - 1];
    0 <= j < |d.news| && h.NewSlot(d.news[j].service, b) == sl && Places(h, d, b, j) < NEW_BUCKETS_PER_ADDRESS
  }

  /** The first n indices of bucket b give record i a place: its index comes when its slot is free. */
  predicate Gives(h: Hashes, d: Disk, b: nat, n: nat, i: nat)
    requires b < |d.buckets| && n <= |d.buckets[b]| && i < |d.news|
    decreases b, 2, n
  {
    n > 0 && (Gives(h, d, b, n - 1, i) || (d.buckets[b][n - 1] == i && Places(h, d, b, i) < NEW_BUCKETS_PER_ADDRESS &&
                                           !Taken(h, d, b, n - 1, h.NewSlot(d.news[i].service, b))))
  }

  /** How many of the first b buckets give record i a place. */
  function Places(h: Hashes, d: Disk, b: nat, i: nat): nat
    requires b <= |d.buckets| && i < |d.news|
    decreases b, 0, 0
  {
    if b == 0 then 0 else Places(h, d, b - 1, i) + if Gives(h, d, b - 1, |d.buckets[b - 1]|, i) then 1 else 0
  }

  /** A new record that is not pruned: in its home slot if the table cannot be used, else by the index of some bucket. */
  predicate Stays(h: Hashes, d: Disk, i: nat)
    requires i < |d.news|
  {
    if Legacy(d) then !HomeSeen(h, d.news, i, HomeOf(h, d.news[i]))
    else exists b :: 0 <= b < |d.buckets| && Gives(h, d, b, |d.buckets[b]|, i)
  }

  /** No entry that stays shares its address with another entry. */
  predicate NoClash(h: Hashes, d: Disk) {
    var all := EntryRecords(h, d);
    forall x, y :: 0 <= x < |all| && 0 <= y < |all| && x != y && all[x].service.ip == all[y].service.ip ==>
      x < |d.news| && !Stays(h, d, x)
  }

  // ----- Reading -----

  /** The entries are these records under their places as ids, the first n new and the others tried. */
  ghost predicate Holds(s: AddrMan, all: seq<Record>, n: nat) {
    && s.nIdCount == |all| && n <= |all| && (forall i :: i in s.mapInfo <==> 0 <= i < |all|)
    && forall i {:trigger s.mapInfo[i]} :: 0 <= i < |all| ==> s.mapInfo[i].service == all[i].service && s.mapInfo[i].fInTried == (i >= n)
  }

  ghost predicate KnownLast(s: AddrMan, id: int)
    requires id in s.mapInfo
  {
    var a := s.mapInfo[id].service.ip;
    a in s.mapAddr && s.mapAddr[a] >= id
  }

  /** Each address leads to the last entry that has it. */
  ghost predicate LastKnown(s: AddrMan) {
    && (forall id {:trigger KnownLast(s, id)} :: id in s.mapInfo ==> KnownLast(s, id))
    && (forall a {:trigger AddrOk(s, a)} :: a in s.mapAddr ==> AddrOk(s, a))
  }

  ghost predicate FewRefs(s: AddrMan) {
    forall id :: id in s.mapInfo ==> s.mapInfo[id].nRefCount <= NEW_BUCKETS_PER_ADDRESS
  }

  ghost predicate Loaded(h: Hashes, s: AddrMan, all: seq<Record>, n: nat) {
    Stocked(h, s) && Z.Placed(s) && Holds(s, all, n) && LastKnown(s) && FewRefs(s)
  }

  lemma EmptyLoaded(h: Hashes)
    ensures Loaded(h, Empty, [], 0)
  {}

  lemma EnteredStocked(h: Hashes, s: AddrMan, r: Record)
    requires Stocked(h, s) && s.nIdCount !in s.mapInfo
    ensures Stocked(h, Entered(s, r))
  {
    hide Stocked;
    var c, id := Created(s, Address(r.service, r.nServices, Max(0, r.nTime)), r.source), s.nIdCount;
    CreatedStocked(h, s, Address(r.service, r.nServices, Max(0, r.nTime)), r.source);
    TouchStocked(h, c, id, c.mapInfo[id].(nTime := r.nTime, nLastSuccess := r.nLastSuccess, nAttempts := r.nAttempts));
  }

  /** One more entry, whose address from now on leads to it. */
  lemma LastOfMore(s: AddrMan, t: AddrMan, id: int)
    requires LastKnown(s) && id !in s.mapInfo && (forall i :: i in s.mapInfo ==> i < id)
    requires t.mapInfo.Keys == s.mapInfo.Keys + {id} && (forall i :: i in s.mapInfo ==> t.mapInfo[i] == s.mapInfo[i])
    requires t.mapAddr == s.mapAddr[t.mapInfo[id].service.ip := id]
    ensures LastKnown(t)
  {
    forall i | i in t.mapInfo ensures KnownLast(t, i) { if i != id { assert KnownLast(s, i); } }
    forall a | a in t.mapAddr ensures AddrOk(t, a) {
      if a != t.mapInfo[id].service.ip {
        assert a in s.mapAddr && AddrOk(s, a);
        var k := s.mapAddr[a];
        assert k in s.mapInfo;
        assert t.mapInfo[k] == s.mapInfo[k];
      }
    }
  }

  lemma NewLoaded(h: Hashes, s: AddrMan, all: seq<Record>, r: Record)
    requires Loaded(h, s, all, |all|)
    ensures Loaded(h, Entered(s, r), all + [r], |all| + 1)
    ensures var e := Entered(s, r);
      && e.mapInfo[|all|].nRefCount == 0 && e.mapInfo[|all|].source == r.source
      && e.vvNew == s.vvNew && e.vvTried == s.vvTried && forall i :: i in s.mapInfo ==> e.mapInfo[i] == s.mapInfo[i]
  {
    hide Stocked, Z.Placed, Entered, LastKnown;
    Z.EnteredIs(s, r);
    var e := Entered(s, r);
    EnteredStocked(h, s, r);
    Z.EnteredPlaced(s, r);
    LastOfMore(s, e, |all|);
  }

  /** Filing an entry somewhere changes no kind, no place and no address. */
  lemma FiledLoaded(h: Hashes, s: AddrMan, all: seq<Record>, n: nat, sl: Slot, id: int)
    requires Loaded(h, s, all, n) && 0 <= id < n && s.mapInfo[id].nRefCount < NEW_BUCKETS_PER_ADDRESS
    requires sl !in s.vvNew && sl.0 < NEW_BUCKET_COUNT && sl == h.NewSlot(s.mapInfo[id].service, sl.0)
    ensures Loaded(h, Ref(s, sl, id), all, n)
  {
    hide Stocked, Z.Placed;
    var t := Ref(s, sl, id);
    assert t.mapInfo.Keys == s.mapInfo.Keys;
    RefStocked(h, s, sl, id);
    Z.SamePlaces(s, t);
    forall i | i in t.mapInfo ensures KnownLast(t, i) { assert KnownLast(s, i); }
    forall a | a in t.mapAddr ensures AddrOk(t, a) { assert AddrOk(s, a); }
  }

  ghost predicate RefCountIs(s: AddrMan, i: int, n: int) {
    i in s.mapInfo && s.mapInfo[i].nRefCount == n
  }

  /** References that a new record gets where the table cannot be used. */
  function HomeRefs(h: Hashes, legacy: bool, news: seq<Record>, i: nat): nat
    requires i < |news|
  {
    if legacy && !HomeSeen(h, news, i, HomeOf(h, news[i])) then 1 else 0
  }

  ghost predicate AtHome(h: Hashes, legacy: bool, news: seq<Record>, s: AddrMan) {
    && (forall sl :: sl in s.vvNew <==> legacy && HomeSeen(h, news, |news|, sl))
    && forall i :: 0 <= i < |news| ==> RefCountIs(s, i, HomeRefs(h, legacy, news, i))
  }

  lemma {:induction false} NewsLoaded(h: Hashes, legacy: bool, news: seq<Record>)
    ensures var s := NewsRead(h, legacy, news); Loaded(h, s, news, |news|) && s.vvTried == map[] && AtHome(h, legacy, news, s)
  {
    hide Loaded, AtHome, Entered, FiledAtHome;
    if news == [] {
      EmptyLoaded(h);
      NobodyHome(h, legacy);
    } else {
      var n := |news| - 1;
      NewsLoaded(h, legacy, news[..n]);
      var s := NewsRead(h, legacy, news[..n]);
      HomeNext(h, legacy, news, n, s);
      assert news[..n] + [news[n]] == news;
    }
  }

  lemma NobodyHome(h: Hashes, legacy: bool)
    ensures AtHome(h, legacy, [], Empty)
  {}

  lemma HomeNext(h: Hashes, legacy: bool, news: seq<Record>, n: nat, s: AddrMan)
    requires n + 1 == |news| && Loaded(h, s, news[..n], n) && s.vvTried == map[] && AtHome(h, legacy, news[..n], s)
    ensures var e := Entered(s, news[n]); var t := if legacy then FiledAtHome(h, e, s.nIdCount) else e;
      Loaded(h, t, news[..n] + [news[n]], n + 1) && t.vvTried == map[] && AtHome(h, legacy, news, t)
  {
    hide Entered, Stocked, Z.Placed, LastKnown;
    NewLoaded(h, s, news[..n], news[n]);
    var e := Entered(s, news[n]);
    var sl := HomeOf(h, news[n]);
    assert O.HomeSlot(h, e.mapInfo[n], e.mapInfo[n].source) == sl by { assert (news[..n] + [news[n]])[n] == news[n]; }
    if legacy && sl !in e.vvNew { FiledLoaded(h, e, news[..n] + [news[n]], n + 1, sl, n); }
    HomeGrows(h, legacy, news, n, s, if legacy then FiledAtHome(h, e, n) else e);
  }

  lemma HomeGrows(h: Hashes, legacy: bool, news: seq<Record>, n: nat, s: AddrMan, t: AddrMan)
    requires n + 1 == |news| && AtHome(h, legacy, news[..n], s) && n in t.mapInfo && n !in s.mapInfo
    requires forall i :: i in s.mapInfo ==> i in t.mapInfo && t.mapInfo[i] == s.mapInfo[i]
    requires var sl := HomeOf(h, news[n]); var filed := legacy && sl !in s.vvNew;
      t.vvNew == (if filed then s.vvNew[sl := n] else s.vvNew) && t.mapInfo[n].nRefCount == if filed then 1 else 0
    ensures AtHome(h, legacy, news, t)
  {
    HomesGrow(h, news, n);
    forall i | 0 <= i < |news| ensures RefCountIs(t, i, HomeRefs(h, legacy, news, i)) {
      if i < n {
        assert news[..n][i] == news[i];
        assert RefCountIs(s, i, HomeRefs(h, legacy, news[..n], i));
      }
    }
  }

  lemma HomesGrow(h: Hashes, news: seq<Record>, n: nat)
    requires n + 1 == |news|
    ensures forall sl :: HomeSeen(h, news, n + 1, sl) <==> HomeSeen(h, news[..n], n, sl) || sl == HomeOf(h, news[n])
    ensures forall i, sl :: 0 <= i <= n ==> (HomeSeen(h, news, i, sl) <==> HomeSeen(h, news[..n], i, sl))
  {
    var front := news[..n];
    forall i, sl | 0 <= i <= n ensures HomeSeen(h, news, i, sl) <==> HomeSeen(h, front, i, sl) {
      if j :| 0 <= j < i && HomeOf(h, news[j]) == sl { assert HomeOf(h, front[j]) == sl; }
      if j :| 0 <= j < i && HomeOf(h, front[j]) == sl { assert HomeOf(h, news[j]) == sl; }
    }
    forall sl ensures HomeSeen(h, news, n + 1, sl) <==> HomeSeen(h, news, n, sl) || sl == HomeOf(h, news[n]) {
      if j :| 0 <= j < n + 1 && HomeOf(h, news[j]) == sl && j != n { assert HomeSeen(h, news, n, sl); }
    }
  }

  // ----- The tried entries -----

  lemma TriedLoaded(h: Hashes, s: AddrMan, all: seq<Record>, n: nat, r: Record)
    requires Loaded(h, s, all, n) && h.TriedSlot(r.service) !in s.vvTried
    ensures var t := TriedRead(h, s, r);
      && Loaded(h, t, all + [r], n) && t.vvNew == s.vvNew && t.vvTried.Keys == s.vvTried.Keys + {h.TriedSlot(r.service)}
      && forall i :: i in s.mapInfo ==> t.mapInfo[i] == s.mapInfo[i]
  {
    hide Stocked, Z.Placed, Entered, LastKnown;
    Z.EnteredIs(s, r);
    Z.TriedReadIs(h, s, r);
    var e, t, id := Entered(s, r), TriedRead(h, s, r), |all|;
    EnteredStocked(h, s, r);
    ToTriedStocked(h, e, id);
    assert t == ToTried(h, e, id);
    Z.TriedPlaced(h, s, r);
    LastOfMore(s, t, id);
  }

  lemma {:induction false} TriedsLoaded(h: Hashes, s: AddrMan, news: seq<Record>, trieds: seq<Record>)
    requires Loaded(h, s, news, |news|) && s.vvTried == map[]
    ensures var t := TriedsRead(h, s, trieds);
      && Loaded(h, t, news + FirstPerSlot(h, trieds), |news|) && t.vvNew == s.vvNew
      && (forall sl :: sl in t.vvTried <==> SlotSeen(h, trieds, sl))
      && forall i :: i in s.mapInfo ==> i in t.mapInfo && t.mapInfo[i] == s.mapInfo[i]
  {
    hide Loaded, TriedRead;
    if trieds == [] {
      assert news + FirstPerSlot(h, []) == news;
    } else {
      var n := |trieds| - 1;
      TriedsLoaded(h, s, news, trieds[..n]);
      var t, r := TriedsRead(h, s, trieds[..n]), trieds[n];
      var before := FirstPerSlot(h, trieds[..n]);
      SlotsGrow(h, trieds, n);
      if h.TriedSlot(r.service) in t.vvTried {
        TriedIsLost(h, t, r);
        assert before + [] == before;
      } else {
        TriedLoaded(h, t, news + before, |news|, r);
        TriedGrows(h, t, r, news + before, |news|);
        assert news + before + [r] == news + (before + [r]);
      }
    }
  }

  lemma TriedIsLost(h: Hashes, s: AddrMan, r: Record)
    requires h.TriedSlot(r.service) in s.vvTried
    ensures TriedRead(h, s, r) == s
  {}

  lemma TriedGrows(h: Hashes, s: AddrMan, r: Record, all: seq<Record>, n: nat)
    requires Loaded(h, s, all, n) && Loaded(h, TriedRead(h, s, r), all + [r], n)
    ensures s.mapInfo.Keys <= TriedRead(h, s, r).mapInfo.Keys
  {
    hide Stocked, LastKnown, Z.Placed, TriedRead;
    forall i | i in s.mapInfo ensures i in TriedRead(h, s, r).mapInfo { assert 0 <= i < |all + [r]|; }
  }

  lemma SlotsGrow(h: Hashes, trieds: seq<Record>, n: nat)
    requires n + 1 == |trieds|
    ensures forall sl :: SlotSeen(h, trieds, sl) <==> SlotSeen(h, trieds[..n], sl) || sl == h.TriedSlot(trieds[n].service)
  {
    assert forall j :: 0 <= j < n ==> trieds[..n][j] == trieds[j];
  }

  // ----- The buckets -----

  /** References after the first b buckets and n indices of the next one. */
  function PlacesWith(h: Hashes, d: Disk, b: nat, n: nat, i: nat): nat
    requires b < |d.buckets| && n <= |d.buckets[b]| && i < |d.news|
  {
    Places(h, d, b, i) + if Gives(h, d, b, n, i) then 1 else 0
  }

  /** After the first n indices of bucket b. */
  ghost predicate Filling(h: Hashes, d: Disk, b: nat, n: nat, s: AddrMan)
    requires b < |d.buckets| && n <= |d.buckets[b]|
  {
    && (forall sl: Slot :: sl in s.vvNew ==> sl.0 <= b)
    && (forall sl: Slot :: sl.0 == b ==> (sl in s.vvNew <==> Taken(h, d, b, n, sl)))
    && forall i :: 0 <= i < |d.news| ==> RefCountIs(s, i, PlacesWith(h, d, b, n, i))
  }

  /** After the first b buckets. */
  ghost predicate Between(h: Hashes, d: Disk, b: nat, s: AddrMan)
    requires b <= |d.buckets|
  {
    && (forall sl :: sl in s.vvNew ==> sl.0 < b)
    && forall i :: 0 <= i < |d.news| ==> RefCountIs(s, i, Places(h, d, b, i))
  }

  /** What a bucket gives it gives once: from then on the slot is taken. */
  lemma {:induction false} GivenIsTaken(h: Hashes, d: Disk, b: nat, n: nat, i: nat)
    requires b < |d.buckets| && n <= |d.buckets[b]| && i < |d.news|
    ensures Gives(h, d, b, n, i) ==> Taken(h, d, b, n, h.NewSlot(d.news[i].service, b))
  {
    if n > 0 { GivenIsTaken(h, d, b, n - 1, i); }
  }

  /** An index places its record exactly if no earlier one of the bucket took the slot and eight buckets did not yet. */
  lemma IndexPlaces(h: Hashes, d: Disk, b: nat, n: nat, all: seq<Record>, s: AddrMan)
    requires b < |d.buckets| && n < |d.buckets[b]| && d.news <= all && Loaded(h, s, all, |d.news|) && Filling(h, d, b, n, s)
    requires 0 <= d.buckets[b][n] < |d.news|
    ensures var j := d.buckets[b][n]; var sl := h.NewSlot(d.news[j].service, b);
      && j in s.mapInfo && s.mapInfo[j].service == d.news[j].service
      && (sl !in s.vvNew && s.mapInfo[j].nRefCount < NEW_BUCKETS_PER_ADDRESS
          <==> !Taken(h, d, b, n, sl) && Places(h, d, b, j) < NEW_BUCKETS_PER_ADDRESS)
      && (!Taken(h, d, b, n, sl) ==> s.mapInfo[j].nRefCount == Places(h, d, b, j) && !Gives(h, d, b, n, j))
  {
    hide Stocked, LastKnown, Z.Placed, FewRefs, Taken, Gives, Places;
    var j := d.buckets[b][n];
    GivenIsTaken(h, d, b, n, j);
    assert RefCountIs(s, j, PlacesWith(h, d, b, n, j));
    assert all[d.buckets[b][n]] == d.news[d.buckets[b][n]];
  }

  lemma IndexFills(h: Hashes, d: Disk, b: nat, n: nat, all: seq<Record>, s: AddrMan)
    requires b < |d.buckets| && n < |d.buckets[b]| && d.news <= all && b < NEW_BUCKET_COUNT
    requires Loaded(h, s, all, |d.news|) && Filling(h, d, b, n, s)
    ensures var t := IndexRead(h, false, |d.news|, s, b, d.buckets[b][n]); Loaded(h, t, all, |d.news|) && Filling(h, d, b, n + 1, t)
  {
    hide Stocked, LastKnown, Z.Placed, FewRefs, Places, Filling, Taken, Holds, Gives;
    var j := d.buckets[b][n];
    if 0 <= j < |d.news| {
      IndexPlaces(h, d, b, n, all, s);
      var sl := h.NewSlot(d.news[j].service, b);
      if sl !in s.vvNew && s.mapInfo[j].nRefCount < NEW_BUCKETS_PER_ADDRESS {
        FiledLoaded(h, s, all, |d.news|, sl, j);
        OneMoreTaken(h, d, b, n, s, j, sl);
      } else {
        NoMoreTaken(h, d, b, n, s);
      }
    } else {
      NoMoreTaken(h, d, b, n, s);
    }
  }

  lemma NoMoreTaken(h: Hashes, d: Disk, b: nat, n: nat, s: AddrMan)
    requires b < |d.buckets| && n < |d.buckets[b]| && Filling(h, d, b, n, s)
    requires var j := d.buckets[b][n]; 0 <= j < |d.news| ==>
      Taken(h, d, b, n, h.NewSlot(d.news[j].service, b)) || Places(h, d, b, j) >= NEW_BUCKETS_PER_ADDRESS
    ensures Filling(h, d, b, n + 1, s)
  {
    hide Places;
    var more := n + 1;
    forall sl: Slot | sl.0 == b ensures Taken(h, d, b, n + 1, sl) <==> Taken(h, d, b, n, sl) {}
    forall i | 0 <= i < |d.news| ensures RefCountIs(s, i, PlacesWith(h, d, b, more, i)) {
      assert RefCountIs(s, i, PlacesWith(h, d, b, n, i));
    }
  }

  lemma OneMoreTaken(h: Hashes, d: Disk, b: nat, n: nat, s: AddrMan, j: nat, sl: Slot)
    requires b < |d.buckets| && n < |d.buckets[b]| && Filling(h, d, b, n, s) && d.buckets[b][n] == j < |d.news|
    requires sl == h.NewSlot(d.news[j].service, b) && !Taken(h, d, b, n, sl) && Places(h, d, b, j) < NEW_BUCKETS_PER_ADDRESS
    requires j in s.mapInfo && s.mapInfo[j].nRefCount == Places(h, d, b, j)
    ensures Filling(h, d, b, n + 1, Ref(s, sl, j))
  {
    hide Places;
    var t, more := Ref(s, sl, j), n + 1;
    forall x: Slot | x.0 == b ensures Taken(h, d, b, n + 1, x) <==> Taken(h, d, b, n, x) || x == sl {}
    forall i | 0 <= i < |d.news| ensures RefCountIs(t, i, PlacesWith(h, d, b, more, i)) {
      assert RefCountIs(s, i, PlacesWith(h, d, b, n, i));
    }
  }

  lemma {:induction false} BucketFills(h: Hashes, d: Disk, b: nat, n: nat, all: seq<Record>, s: AddrMan)
    requires b < |d.buckets| && n <= |d.buckets[b]| && d.news <= all && b < NEW_BUCKET_COUNT
    requires Loaded(h, s, all, |d.news|) && Between(h, d, b, s)
    ensures var t := BucketRead(h, false, |d.news|, s, b, d.buckets[b][..n]); Loaded(h, t, all, |d.news|) && Filling(h, d, b, n, t)
  {
    hide Loaded, Filling, Between, IndexRead;
    if n == 0 {
      BucketBegins(h, d, b, s);
    } else {
      BucketFills(h, d, b, n - 1, all, s);
      assert d.buckets[b][..n][..n - 1] == d.buckets[b][..n - 1];
      IndexFills(h, d, b, n - 1, all, BucketRead(h, false, |d.news|, s, b, d.buckets[b][..n - 1]));
    }
  }

  lemma BucketBegins(h: Hashes, d: Disk, b: nat, s: AddrMan)
    requires b < |d.buckets| && Between(h, d, b, s)
    ensures Filling(h, d, b, 0, s)
  {
    hide Places;
    forall i | 0 <= i < |d.news| ensures RefCountIs(s, i, PlacesWith(h, d, b, 0, i)) {
      assert RefCountIs(s, i, Places(h, d, b, i));
    }
  }

  lemma BucketEnded(h: Hashes, d: Disk, b: nat, s: AddrMan)
    requires b < |d.buckets| && Filling(h, d, b, |d.buckets[b]|, s)
    ensures Between(h, d, b + 1, s)
  {
    hide Taken, Gives;
    var n, next := |d.buckets[b]|, b + 1;
    forall i | 0 <= i < |d.news| ensures RefCountIs(s, i, Places(h, d, next, i)) {
      assert RefCountIs(s, i, PlacesWith(h, d, b, n, i));
    }
  }

  lemma {:induction false} BucketsFill(h: Hashes, d: Disk, b: nat, all: seq<Record>, s: AddrMan)
    requires b <= |d.buckets| <= NEW_BUCKET_COUNT && d.news <= all && Loaded(h, s, all, |d.news|) && Between(h, d, 0, s)
    ensures var t := BucketsRead(h, false, |d.news|, s, d.buckets[..b]); Loaded(h, t, all, |d.news|) && Between(h, d, b, t)
  {
    hide Loaded, Filling, Between, BucketRead;
    if b > 0 {
      BucketsFill(h, d, b - 1, all, s);
      assert d.buckets[..b][..b - 1] == d.buckets[..b - 1];
      var t := BucketsRead(h, false, |d.news|, s, d.buckets[..b - 1]);
      BucketFills(h, d, b - 1, |d.buckets[b - 1]|, all, t);
      assert d.buckets[b - 1][..|d.buckets[b - 1]|] == d.buckets[b - 1];
      BucketEnded(h, d, b - 1, BucketRead(h, false, |d.news|, t, b - 1, d.buckets[b - 1]));
    }
  }

  lemma {:induction false} LegacyBucket(h: Hashes, nNew: int, s: AddrMan, b: nat, indices: seq<int>)
    ensures BucketRead(h, true, nNew, s, b, indices) == s
  {
    if indices != [] { LegacyBucket(h, nNew, s, b, indices[..|indices| - 1]); }
  }

  lemma {:induction false} LegacyBuckets(h: Hashes, nNew: int, s: AddrMan, buckets: seq<seq<int>>)
    ensures BucketsRead(h, true, nNew, s, buckets) == s
  {
    if buckets != [] {
      LegacyBuckets(h, nNew, s, buckets[..|buckets| - 1]);
      LegacyBucket(h, nNew, s, |buckets| - 1, buckets[|buckets| - 1]);
    }
  }

  lemma {:induction false} PlacedSomewhere(h: Hashes, d: Disk, b: nat, i: nat)
    requires b <= |d.buckets| && i < |d.news|
    ensures Places(h, d, b, i) > 0 <==> exists c :: 0 <= c < b && Gives(h, d, c, |d.buckets[c]|, i)
  {
    hide Gives;
    if b > 0 { PlacedSomewhere(h, d, b - 1, i); }
  }

  /** The new entries with references are the ones that stay. */
  ghost predicate StayAsSaid(h: Hashes, d: Disk, s: AddrMan) {
    forall i :: 0 <= i < |d.news| ==> i in s.mapInfo && (s.mapInfo[i].nRefCount > 0 <==> Stays(h, d, i))
  }

  /** Before the pruning: the entries are the records, and those to prune are the new ones that do not stay. */
  lemma TablesLoaded(h: Hashes, d: Disk)
    requires Readable(d) && d.nNew >= 0 && d.nTried >= 0
    ensures var s := Tables(h, d);
      && Loaded(h, s, EntryRecords(h, d), |d.news|)
      && StayAsSaid(h, d, s)
  {
    hide Loaded, AtHome, NewsRead, TriedsRead, BucketsRead, FirstPerSlot, Between, Gives, Places;
    var news := NewsRead(h, Legacy(d), d.news);
    NewsLoaded(h, Legacy(d), d.news);
    Z.NewsPlaced(h, Legacy(d), d.news);
    assert news.(nIdCount := d.nNew, nNew := d.nNew) == news;
    TriedsLoaded(h, news, d.news, d.trieds);
    var e, all := Entries(h, d), EntryRecords(h, d);
    if Legacy(d) {
      LegacyBuckets(h, |d.news|, e, d.buckets);
      HomesStay(h, d, news, e);
    } else {
      NothingPlaced(h, d, news, e);
      BucketsFill(h, d, |d.buckets|, all, e);
      assert d.buckets[..|d.buckets|] == d.buckets;
      PlacesStay(h, d, Tables(h, d));
    }
  }

  lemma HomesStay(h: Hashes, d: Disk, news: AddrMan, e: AddrMan)
    requires Legacy(d) && AtHome(h, true, d.news, news) && forall i :: i in news.mapInfo ==> i in e.mapInfo && e.mapInfo[i] == news.mapInfo[i]
    ensures StayAsSaid(h, d, e)
  {
    hide HomeSeen;
    forall i | 0 <= i < |d.news| ensures i in e.mapInfo && (e.mapInfo[i].nRefCount > 0 <==> Stays(h, d, i)) {
      assert RefCountIs(news, i, HomeRefs(h, true, d.news, i));
    }
  }

  lemma NothingPlaced(h: Hashes, d: Disk, news: AddrMan, e: AddrMan)
    requires AtHome(h, false, d.news, news) && e.vvNew == news.vvNew
    requires forall i :: i in news.mapInfo ==> i in e.mapInfo && e.mapInfo[i] == news.mapInfo[i]
    ensures Between(h, d, 0, e)
  {
    forall i | 0 <= i < |d.news| ensures RefCountIs(e, i, Places(h, d, 0, i)) {
      assert RefCountIs(news, i, HomeRefs(h, false, d.news, i));
    }
  }

  lemma PlacesStay(h: Hashes, d: Disk, s: AddrMan)
    requires !Legacy(d) && Between(h, d, |d.buckets|, s)
    ensures StayAsSaid(h, d, s)
  {
    hide Places, Gives;
    forall i | 0 <= i < |d.news| ensures i in s.mapInfo && (s.mapInfo[i].nRefCount > 0 <==> Stays(h, d, i)) {
      PlacedSomewhere(h, d, |d.buckets|, i);
      assert RefCountIs(s, i, Places(h, d, |d.buckets|, i));
    }
  }

  // ----- Pruning -----

  /** An entry below n that is pruned has the address. */
  ghost predicate Erased(s: AddrMan, n: int, a: NetAddr) {
    exists id :: id in s.mapInfo && id < n && Prunable(s, id) && s.mapInfo[id].service.ip == a
  }

  /** `p` is `s` without the entries below n that are to be pruned, and without their addresses. */
  ghost predicate WithoutPruned(s: AddrMan, n: int, p: AddrMan) {
    && p.nIdCount == s.nIdCount
    && (forall id :: id in p.mapInfo <==> id in s.mapInfo && !(id < n && Prunable(s, id)))
    && (forall id :: id in p.mapInfo ==> p.mapInfo[id] == s.mapInfo[id].(nRandomPos := p.mapInfo[id].nRandomPos))
    && (forall a :: a in p.mapAddr <==> a in s.mapAddr && !Erased(s, n, a))
    && (forall a :: a in p.mapAddr ==> p.mapAddr[a] == s.mapAddr[a])
  }

  lemma DeletedStocked(h: Hashes, s: AddrMan, id: int)
    requires Stocked(h, s) && Z.Placed(s) && Deletable(s, id)
    ensures Stocked(h, Deleted(s, id))
  {
    hide Stocked;
    var i, j := s.mapInfo[id].nRandomPos, |s.vRandom| - 1;
    assert Z.PlacedId(s, id) && PosOk(s, i) && PosOk(s, j);
    SwappedStocked(h, s, i, j);
    SwappedAt(s, i, j);
    DroppedStocked(h, Swapped(s, i, j), id);
  }

  lemma DeletedLeaves(s: AddrMan, id: int)
    requires Deletable(s, id)
    ensures var t := Deleted(s, id);
      && t.mapInfo.Keys == s.mapInfo.Keys - {id} && t.mapAddr == s.mapAddr - {s.mapInfo[id].service.ip} && t.nIdCount == s.nIdCount
      && t.nNew == s.nNew - 1 && t.nTried == s.nTried
      && forall i :: i in t.mapInfo ==> t.mapInfo[i] == s.mapInfo[i].(nRandomPos := t.mapInfo[i].nRandomPos)
  {
    hide Swapped;
    SwappedLeaves(s, s.mapInfo[id].nRandomPos, |s.vRandom| - 1);
  }

  lemma SwappedLeaves(s: AddrMan, i: nat, j: nat)
    requires Swappable(s, i, j)
    ensures var w := Swapped(s, i, j);
      && w.mapInfo.Keys == s.mapInfo.Keys && w == s.(mapInfo := w.mapInfo, vRandom := w.vRandom) && |w.vRandom| == |s.vRandom|
      && forall k :: k in s.mapInfo ==> w.mapInfo[k] == s.mapInfo[k].(nRandomPos := w.mapInfo[k].nRandomPos)
  {}

  lemma {:induction false} PrunedIs(h: Hashes, s: AddrMan, n: nat)
    requires Stocked(h, s) && Z.Placed(s) && forall id :: id in s.mapInfo ==> id >= 0
    ensures var p := Pruned(s, Upto(n)); Stocked(h, p) && Z.Placed(p) && WithoutPruned(s, n, p)
  {
    hide Stocked, Z.Placed, Deleted, Deletable, WithoutPruned;
    if n == 0 {
      NoneWithout(s);
    } else {
      PrunedIs(h, s, n - 1);
      var p := Pruned(s, Upto(n - 1));
      assert Upto(n)[..n - 1] == Upto(n - 1) && Upto(n)[n - 1] == n - 1;
      if Prunable(p, n - 1) {
        Z.PlacedCanDelete(p, n - 1);
        DeletedStocked(h, p, n - 1);
        Z.DeletedPlaced(p, n - 1);
        DeletedLeaves(p, n - 1);
        OneLess(s, n, p, Deleted(p, n - 1));
      } else {
        NoneLess(s, n, p);
      }
    }
  }

  lemma NoneWithout(s: AddrMan)
    requires forall id :: id in s.mapInfo ==> id >= 0
    ensures WithoutPruned(s, 0, s)
  {}

  lemma OneLess(s: AddrMan, n: nat, p: AddrMan, q: AddrMan)
    requires n > 0 && WithoutPruned(s, n - 1, p) && Prunable(p, n - 1)
    requires q.mapInfo.Keys == p.mapInfo.Keys - {n - 1} && q.mapAddr == p.mapAddr - {p.mapInfo[n - 1].service.ip} && q.nIdCount == p.nIdCount
    requires forall i :: i in q.mapInfo ==> q.mapInfo[i] == p.mapInfo[i].(nRandomPos := q.mapInfo[i].nRandomPos)
    ensures WithoutPruned(s, n, q)
  {
    assert Prunable(s, n - 1) && s.mapInfo[n - 1].service == p.mapInfo[n - 1].service;
    ErasedGrows(s, n);
  }

  lemma NoneLess(s: AddrMan, n: nat, p: AddrMan)
    requires n > 0 && WithoutPruned(s, n - 1, p) && !Prunable(p, n - 1)
    ensures WithoutPruned(s, n, p)
  {
    assert !Prunable(s, n - 1);
    ErasedGrows(s, n);
  }

  lemma ErasedGrows(s: AddrMan, n: nat)
    requires n > 0
    ensures forall a :: Erased(s, n, a) <==> Erased(s, n - 1, a) || (Prunable(s, n - 1) && s.mapInfo[n - 1].service.ip == a)
  {}

  // ----- When the invariant holds -----

  /** No entry that stays shares its address with another. */
  ghost predicate Unshared(s: AddrMan) {
    forall x, y :: x in s.mapInfo && y in s.mapInfo && x != y && s.mapInfo[x].service.ip == s.mapInfo[y].service.ip ==> Prunable(s, x)
  }

  lemma IndexedExactly(s: AddrMan, p: AddrMan)
    requires LastKnown(s) && (forall id :: id in s.mapInfo ==> 0 <= id < s.nIdCount)
    requires Z.Placed(p) && WithoutPruned(s, s.nIdCount, p) && s.nIdCount >= 0
    ensures Indexed(p) <==> Unshared(s)
  {
    if Unshared(s) {
      forall x | x in p.mapInfo ensures IdOk(p, x) {
        assert Z.PlacedId(p, x) && KnownLast(s, x);
        assert AddrOk(s, s.mapInfo[x].service.ip);
      }
      forall a | a in p.mapAddr ensures AddrOk(p, a) { assert AddrOk(s, a); }
    }
    if Indexed(p) {
      forall x, y | x in s.mapInfo && y in s.mapInfo && x != y && s.mapInfo[x].service.ip == s.mapInfo[y].service.ip ensures Prunable(s, x) {
        if !Prunable(s, x) { SharedFails(s, p, x, y); }
      }
    }
  }

  /** If both stay the address leads to one of them only; if one is pruned it leads nowhere. */
  lemma SharedFails(s: AddrMan, p: AddrMan, x: int, y: int)
    requires WithoutPruned(s, s.nIdCount, p) && forall id :: id in s.mapInfo ==> id < s.nIdCount
    requires x in s.mapInfo && y in s.mapInfo && x != y && s.mapInfo[x].service.ip == s.mapInfo[y].service.ip && !Prunable(s, x)
    ensures !Indexed(p)
  {
    if Prunable(s, y) {
      assert Erased(s, s.nIdCount, s.mapInfo[x].service.ip);
      assert !IdOk(p, x);
    } else {
      assert !IdOk(p, x) || !IdOk(p, y);
    }
  }

  lemma SettledLive(h: Hashes, s: AddrMan, p: AddrMan)
    requires Stocked(h, s) && FewRefs(s) && WithoutPruned(s, s.nIdCount, p) && forall id :: id in s.mapInfo ==> id < s.nIdCount
    ensures Live(p, {})
  {
    forall id | id in p.mapInfo ensures LiveId(p.mapInfo[id], id in {}) { assert RefOk(s, id); }
  }

  lemma PrunedAsSaid(h: Hashes, d: Disk, s: AddrMan)
    requires Loaded(h, s, EntryRecords(h, d), |d.news|) && StayAsSaid(h, d, s)
    ensures var all := EntryRecords(h, d);
      && |d.news| <= |all| && (forall i :: i in s.mapInfo <==> 0 <= i < |all|)
      && forall i {:trigger s.mapInfo[i]} :: 0 <= i < |all| ==>
          s.mapInfo[i].service == all[i].service && (Prunable(s, i) <==> i < |d.news| && !Stays(h, d, i))
  {
    hide Z.Placed, LastKnown, FirstPerSlot, Stays, FewRefs;
    forall i | 0 <= i < |EntryRecords(h, d)| ensures Prunable(s, i) <==> i < |d.news| && !Stays(h, d, i) { assert RefOk(s, i); }
  }

  lemma UnsharedIsNoClash(h: Hashes, d: Disk, s: AddrMan)
    requires Loaded(h, s, EntryRecords(h, d), |d.news|)
    requires StayAsSaid(h, d, s)
    ensures Unshared(s) <==> NoClash(h, d)
  {
    hide Loaded, StayAsSaid, EntryRecords, Stays, Prunable;
    var all := EntryRecords(h, d);
    PrunedAsSaid(h, d, s);
    if NoClash(h, d) {
      forall x, y | x in s.mapInfo && y in s.mapInfo && x != y && s.mapInfo[x].service.ip == s.mapInfo[y].service.ip ensures Prunable(s, x) {
        assert all[x].service.ip == all[y].service.ip;
      }
    }
    if Unshared(s) {
      forall x, y | 0 <= x < |all| && 0 <= y < |all| && x != y && all[x].service.ip == all[y].service.ip
        ensures x < |d.news| && !Stays(h, d, x)
      {
        assert s.mapInfo[x].service.ip == s.mapInfo[y].service.ip;
      }
    }
  }

  /** With counts that are not negative. */
  lemma LoadsExactly(h: Hashes, d: Disk)
    requires Readable(d) && d.nNew >= 0 && d.nTried >= 0
    ensures Inv(h, Load(h, d)) <==> NoClash(h, d)
  {
    hide Tables, NoClash, Stays, EntryRecords, Pruned, Unshared, WithoutPruned, Z.Placed, Stocked, LastKnown, FewRefs, Indexed, Live;
    TablesLoaded(h, d);
    var s := Tables(h, d);
    assert Loaded(h, s, EntryRecords(h, d), |d.news|);
    PrunedIs(h, s, s.nIdCount);
    IndexedExactly(s, Load(h, d));
    SettledLive(h, s, Load(h, d));
    UnsharedIsNoClash(h, d, s);
  }

  // ----- Negative counts -----

  lemma {:induction false} TriedsCount(h: Hashes, s: AddrMan, trieds: seq<Record>)
    ensures TriedsRead(h, s, trieds).nNew == s.nNew
  {
    hide TriedRead;
    if trieds != [] {
      TriedsCount(h, s, trieds[..|trieds| - 1]);
      Z.TriedReadIs(h, TriedsRead(h, s, trieds[..|trieds| - 1]), trieds[|trieds| - 1]);
    }
  }

  lemma {:induction false} BucketCount(h: Hashes, legacy: bool, nNew: int, s: AddrMan, b: nat, indices: seq<int>)
    ensures var t := BucketRead(h, legacy, nNew, s, b, indices); t.nNew == s.nNew && t.nTried == s.nTried
  {
    if indices != [] { BucketCount(h, legacy, nNew, s, b, indices[..|indices| - 1]); }
  }

  lemma {:induction false} BucketsCount(h: Hashes, legacy: bool, nNew: int, s: AddrMan, buckets: seq<seq<int>>)
    ensures var t := BucketsRead(h, legacy, nNew, s, buckets); t.nNew == s.nNew && t.nTried == s.nTried
  {
    hide BucketRead;
    if buckets != [] {
      BucketsCount(h, legacy, nNew, s, buckets[..|buckets| - 1]);
      BucketCount(h, legacy, nNew, BucketsRead(h, legacy, nNew, s, buckets[..|buckets| - 1]), |buckets| - 1, buckets[|buckets| - 1]);
    }
  }

  lemma {:induction false} PrunedCount(s: AddrMan, ids: seq<int>)
    ensures Pruned(s, ids).nNew <= s.nNew && Pruned(s, ids).nTried == s.nTried
  {
    hide Deleted, Deletable;
    if ids != [] {
      PrunedCount(s, ids[..|ids| - 1]);
      var p, id := Pruned(s, ids[..|ids| - 1]), ids[|ids| - 1];
      if Prunable(p, id) && Deletable(p, id) { DeletedLeaves(p, id); }
    }
  }

  /** A negative count stays in its counter, and no number of entries is negative. */
  lemma NegativeCounts(h: Hashes, d: Disk)
    requires d.nNew < 0 || d.nTried < 0
    ensures !Inv(h, Load(h, d))
  {
    hide NewsRead, TriedsRead, BucketsRead, Pruned, Tabled, Referenced, Indexed, Live;
    var base := NewsRead(h, Legacy(d), d.news).(nIdCount := d.nNew, nNew := d.nNew);
    TriedsCount(h, base, d.trieds);
    BucketsCount(h, Legacy(d), |d.news|, Entries(h, d), d.buckets);
    var s := Tables(h, d);
    PrunedCount(s, Upto(s.nIdCount));
  }

  /**
    For every file that is read to its end, of any version and bucket count, with any counts, records and indices: what
    it loads satisfies the invariant exactly if the counts are not negative and no entry that stays shares its address.
    */
  lemma FilesLoadExactly(h: Hashes, d: Disk)
    requires Readable(d)
    ensures Inv(h, Load(h, d)) <==> d.nNew >= 0 && d.nTried >= 0 && NoClash(h, d)
  {
    hide Inv, Load, NoClash;
    if d.nNew >= 0 && d.nTried >= 0 { LoadsExactly(h, d); } else { NegativeCounts(h, d); }
  }

  ghost predicate DistinctAddresses(records: seq<Record>) {
    forall i, j :: 0 <= i < j < |records| ==> records[i].service.ip != records[j].service.ip
  }

  /** In particular if no two records share an address at all. */
  lemma DistinctFilesLoad(h: Hashes, d: Disk)
    requires Readable(d) && DistinctAddresses(d.news + d.trieds)
    ensures Inv(h, Load(h, d)) <==> d.nNew >= 0 && d.nTried >= 0
  {
    hide Inv, Load, Stays;
    FilesLoadExactly(h, d);
    StillDistinct(h, d.news, d.trieds);
  }

  lemma {:induction false} StillDistinct(h: Hashes, news: seq<Record>, trieds: seq<Record>)
    requires DistinctAddresses(news + trieds)
    ensures DistinctAddresses(news + FirstPerSlot(h, trieds))
    ensures forall r :: r in FirstPerSlot(h, trieds) ==> r in trieds
    decreases |trieds|
  {
    hide SlotSeen;
    if trieds != [] {
      var n := |trieds| - 1;
      var all := news + trieds;
      assert all[..|all| - 1] == news + trieds[..n];
      StillDistinct(h, news, trieds[..n]);
      var front := FirstPerSlot(h, trieds[..n]);
      forall r | r in news + front ensures r.service.ip != trieds[n].service.ip { Differs(news, trieds, n, r); }
      var last := FirstPerSlot(h, trieds);
      assert last == front || news + last == (news + front) + [trieds[n]];
    }
  }

  lemma Differs(news: seq<Record>, trieds: seq<Record>, n: nat, r: Record)
    requires n + 1 == |trieds| && DistinctAddresses(news + trieds) && (r in news || r in trieds[..n])
    ensures r.service.ip != trieds[n].service.ip
  {
    var all := news + trieds;
    assert all[|all| - 1] == trieds[n];
    if r in news {
      var i :| 0 <= i < |news| && news[i] == r;
      assert all[i] == r;
    } else {
      var i :| 0 <= i < n && trieds[..n][i] == r;
      assert all[|news| + i] == r;
    }
  }

  // ----- Files whose manager fails the test -----

  /** A file of this version with no records at all, and a count of -1. */
  const MINUS_ONE := Disk(1, 32, -1, 0, BIT30, [], [], [])

  lemma NegativeCountFails(h: Hashes)
    ensures Readable(MINUS_ONE) && !Inv(h, Load(h, MINUS_ONE))
  {
    NegativeCounts(h, MINUS_ONE);
  }

  /** Two records with one address do no harm where one of them is lost: the same tried record twice. */
  const SAME_TWICE := Disk(0, 32, 0, 2, 0, [], [Plain(1), Plain(1)], [])

  lemma SharedAddressMayLoad(h: Hashes)
    ensures Readable(SAME_TWICE) && !DistinctAddresses(SAME_TWICE.news + SAME_TWICE.trieds) && Inv(h, Load(h, SAME_TWICE))
  {
    hide Inv, Load;
    var two := SAME_TWICE.trieds;
    assert (SAME_TWICE.news + two)[0] == (SAME_TWICE.news + two)[1] == Plain(1);
    assert two[..1] == [Plain(1)] && two[..1][..0] == [];
    assert two[..1][0] == Plain(1) && SlotSeen(h, two[..1], h.TriedSlot(Plain(1).service));
    assert FirstPerSlot(h, two[..1][..0]) == [];
    assert !SlotSeen(h, two[..1][..0], h.TriedSlot(Plain(1).service));
    assert FirstPerSlot(h, two[..1]) == [Plain(1)];
    assert FirstPerSlot(h, two) == [Plain(1)];
    FilesLoadExactly(h, SAME_TWICE);
  }

  function Plain(port: nat): Record {
    Record(Service(1, port), {}, 0, 7, 0, 0)
  }

  /** An old file with two records for one address, on different ports. */
  const TWICE := Disk(0, 32, 2, 0, 0, [Plain(1), Plain(2)], [], [])

  /** Before the pruning: both have an id, and only the first one a slot. */
  const BOTH_READ := AddrMan(2,
    map[0 := Info(Service(1, 1), {}, 0, 0, 7, 0, 0, 1, false, 0), 1 := Info(Service(1, 2), {}, 0, 0, 7, 0, 0, 0, false, 1)],
    map[1 := 1], [0, 1], 0, map[], 2, map[(0, 0) := 0])

  lemma FirstRead()
    ensures NewsRead(O.COLLIDING, true, [Plain(1)]) == O.OneEntry(0)
  {
    var h := O.COLLIDING;
    assert [Plain(1)][..0] == [] && NewsRead(h, true, []) == Empty;
    var e := Entered(Empty, Plain(1));
    assert e == AddrMan(1, map[0 := Info(Service(1, 1), {}, 0, 0, 7, 0, 0, 0, false, 0)], map[1 := 0], [0], 0, map[], 1, map[]);
    assert O.HomeSlot(h, e.mapInfo[0], 7) == (0, 0);
    assert Ref(e, (0, 0), 0) == O.OneEntry(0);
  }

  lemma BothRead()
    ensures Readable(TWICE) && Tables(O.COLLIDING, TWICE) == BOTH_READ
  {
    var h := O.COLLIDING;
    assert TWICE.news[..1] == [Plain(1)];
    FirstRead();
    var e := Entered(O.OneEntry(0), Plain(2));
    assert e == BOTH_READ;
    assert O.HomeSlot(h, e.mapInfo[1], 7) == (0, 0);
    assert NewsRead(h, true, TWICE.news) == BOTH_READ;
  }

  /** Where the hashes collide, the second entry is pruned, and with it goes the address of the first. */
  lemma SharedAddressIsLost()
    ensures Readable(TWICE) && !Inv(O.COLLIDING, Load(O.COLLIDING, TWICE))
    ensures var s := Load(O.COLLIDING, TWICE); 0 in s.mapInfo && s.mapInfo[0].service.ip !in s.mapAddr
  {
    hide Tables;
    BothRead();
    assert Upto(2) == [0, 1] && Upto(2)[..1] == [0] && Upto(2)[..1][..0] == [];
    assert Pruned(BOTH_READ, [0]) == BOTH_READ;
    var s := Load(O.COLLIDING, TWICE);
    assert s == Deleted(BOTH_READ, 1);
    assert !IdOk(s, 0);
  }
}
