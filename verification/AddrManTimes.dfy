/** The tests of Check_ on recorded times: they hold as long as the clock readings that are handed in are positive. */
module AddrManTimes {
  import opened AddrManState
  import opened AddrManOps
  import opened Arith

  /** Return codes -6 and -8, and -1 for a tried entry. */
  predicate TimeOk(info: Info) {
    info.nLastTry >= 0 && info.nLastSuccess >= 0 && (info.fInTried ==> info.nLastSuccess != 0)
  }

  predicate TimesOk(s: AddrMan) {
    forall id :: id in s.mapInfo ==> TimeOk(s.mapInfo[id])
  }

  /** What is recorded of connections is as in the other entry, which is for the same service and source. */
  predicate SameHistory(a: Info, b: Info) {
    && a.service == b.service && a.source == b.source
    && a.nLastTry == b.nLastTry && a.nLastSuccess == b.nLastSuccess && a.nAttempts == b.nAttempts
  }

  /** An old entry with its history and not tried unless it was, or a new one without a history. */
  ghost predicate TimesFrom(s: AddrMan, id: int, info: Info) {
    if id in s.mapInfo then SameHistory(s.mapInfo[id], info) && (info.fInTried ==> s.mapInfo[id].fInTried)
    else id >= s.nIdCount && info.nLastTry == 0 && info.nLastSuccess == 0 && info.nAttempts == 0 && !info.fInTried
  }

  /** A change that records no time and makes nothing tried. */
  ghost predicate Timeless(s: AddrMan, t: AddrMan) {
    && s.nIdCount <= t.nIdCount
    && forall id {:trigger TimesFrom(s, id, t.mapInfo[id])} :: id in t.mapInfo ==> TimesFrom(s, id, t.mapInfo[id])
  }

  /** Ids are handed out in order. */
  ghost predicate Numbered(s: AddrMan) {
    forall id :: id in s.mapInfo ==> id < s.nIdCount
  }

  lemma InvNumbers(h: Hashes, s: AddrMan)
    requires Inv(h, s)
    ensures Numbered(s)
  {
    forall id | id in s.mapInfo ensures id < s.nIdCount { assert IdOk(s, id); }
  }

  lemma TimelessKeeps(s: AddrMan, t: AddrMan)
    requires TimesOk(s) && Timeless(s, t)
    ensures TimesOk(t)
  {
    forall id | id in t.mapInfo ensures TimeOk(t.mapInfo[id]) { assert TimesFrom(s, id, t.mapInfo[id]); }
  }

  lemma TimelessTwice(s: AddrMan, t: AddrMan, u: AddrMan)
    requires Numbered(s) && Timeless(s, t) && Timeless(t, u)
    ensures Timeless(s, u)
  {
    forall id | id in u.mapInfo ensures TimesFrom(s, id, u.mapInfo[id]) {
      assert TimesFrom(t, id, u.mapInfo[id]);
      if id in t.mapInfo { assert TimesFrom(s, id, t.mapInfo[id]); }
    }
  }

  // ----- Most changes are timeless -----

  lemma SwappedTimeless(s: AddrMan, i: nat, j: nat)
    requires Swappable(s, i, j)
    ensures Timeless(s, Swapped(s, i, j))
  {}

  lemma DeletedTimeless(s: AddrMan, id: int)
    requires Deletable(s, id)
    ensures Timeless(s, Deleted(s, id))
  {
    forall i | i in Deleted(s, id).mapInfo ensures TimesFrom(s, i, Deleted(s, id).mapInfo[i]) {
      DeletedKeys(s, id);
      DeletedSpares(s, id, i);
    }
  }

  lemma ClearNewTimeless(s: AddrMan, sl: Slot)
    requires Numbered(s)
    ensures Timeless(s, ClearNew(s, sl))
  {
    hide Deleted, Deletable;
    if sl in s.vvNew && s.vvNew[sl] in s.mapInfo {
      var id, u := s.vvNew[sl], Unref(s, sl);
      assert Timeless(s, u);
      if u.mapInfo[id].nRefCount == 0 && Deletable(u, id) {
        DeletedTimeless(u, id);
        TimelessTwice(s, u, Deleted(u, id));
      }
    }
  }

  lemma RefTimeless(s: AddrMan, sl: Slot, id: int)
    requires id in s.mapInfo
    ensures Timeless(s, Ref(s, sl, id))
  {}

  lemma EvictedTimeless(h: Hashes, s: AddrMan, ts: Slot)
    requires Numbered(s)
    ensures Timeless(s, Evicted(h, s, ts))
  {
    hide ClearNew, Ref;
    if ts in s.vvTried && s.vvTried[ts] in s.mapInfo {
      var prev := s.vvTried[ts];
      var f := FromTried(h, s, prev);
      var us := HomeSlot(h, f.mapInfo[prev], f.mapInfo[prev].source);
      var c := ClearNew(f, us);
      assert Timeless(s, f);
      ClearNewTimeless(f, us);
      TimelessTwice(s, f, c);
      if prev in c.mapInfo {
        RefTimeless(c, us, prev);
        TimelessTwice(s, c, Ref(c, us, prev));
      }
    }
  }

  lemma FiledTimeless(h: Hashes, s: AddrMan, id: int, source: NetAddr, now: int)
    requires Numbered(s) && id in s.mapInfo
    ensures Timeless(s, Filed(h, s, id, source, now))
  {
    hide ClearNew, Ref, Deleted, Deletable, Info.IsTerrible;
    var us := HomeSlot(h, s.mapInfo[id], source);
    var c := ClearNew(s, us);
    ClearNewTimeless(s, us);
    if id in c.mapInfo {
      RefTimeless(c, us, id);
      TimelessTwice(s, c, Ref(c, us, id));
    }
    if Deletable(s, id) { DeletedTimeless(s, id); }
  }

  lemma AddTimeless(h: Hashes, s: AddrMan, addr: Address, source: NetAddr, nTimePenalty: int, isRoutable: bool, now: int, roll: nat)
    requires Numbered(s)
    ensures Timeless(s, Add(h, s, addr, source, nTimePenalty, isRoutable, now, roll).0)
  {
    hide Filed, TryAgain;
    var ip := addr.service.ip;
    if isRoutable {
      if ip in s.mapAddr && s.mapAddr[ip] in s.mapInfo {
        var id := s.mapAddr[ip];
        var t := SetInfo(s, id, Refreshed(s.mapInfo[id], addr, nTimePenalty, now));
        assert Timeless(s, t);
        FiledTimeless(h, t, id, source, now);
        TimelessTwice(s, t, Filed(h, t, id, source, now));
      } else {
        var c := Announced(s, addr, source, nTimePenalty);
        assert Timeless(s, c);
        FiledTimeless(h, c, s.nIdCount, source, now);
        TimelessTwice(s, c, Filed(h, c, s.nIdCount, source, now));
      }
    }
  }

  lemma {:induction false} ShuffledTimeless(h: Hashes, s: AddrMan, n: nat, nNodes: int, now: int, rnd: nat -> nat, got: seq<int>)
    requires Inv(h, s) && n <= |s.vRandom| && Handed(s, n, got)
    ensures Timeless(s, Shuffled(s, n, nNodes, now, rnd, got).0)
    decreases |s.vRandom| - n
  {
    hide Inv, Handed, ShuffleStep;
    if n < |s.vRandom| && |got| < nNodes {
      ShuffleStepKeeps(h, s, n, now, rnd, got);
      ShuffleStepTimeless(h, s, n, now, rnd, got);
      var (t, got') := ShuffleStep(s, n, now, rnd, got);
      ShuffledTimeless(h, t, n + 1, nNodes, now, rnd, got');
      InvNumbers(h, s);
      TimelessTwice(s, t, Shuffled(t, n + 1, nNodes, now, rnd, got').0);
    }
  }

  lemma ShuffleStepTimeless(h: Hashes, s: AddrMan, n: nat, now: int, rnd: nat -> nat, got: seq<int>)
    requires Inv(h, s) && n < |s.vRandom|
    ensures Timeless(s, ShuffleStep(s, n, now, rnd, got).0)
  {
    hide Core, Live;
    var j := PickFrom(rnd, n, |s.vRandom|);
    CanSwap(h, s, n, j);
    SwappedTimeless(s, n, j);
  }

  // ----- The steps that record a time -----

  /** MakeTried makes one entry tried, with the times it had, and is timeless for the others. */
  lemma MadeTriedTimes(h: Hashes, s: AddrMan, id: int)
    requires Inv(h, s) && id in s.mapInfo && !s.mapInfo[id].fInTried
    ensures var t := MadeTried(h, s, id);
      && id in t.mapInfo && t.mapInfo[id].fInTried && SameHistory(s.mapInfo[id], t.mapInfo[id])
      && forall i :: i in t.mapInfo && i != id ==> TimesFrom(s, i, t.mapInfo[i])
  {
    hide Core, Live, Evicted;
    var u, ts := Unlisted(s, id), h.TriedSlot(s.mapInfo[id].service);
    UnlistedFacts(h, s, id);
    EvictedKeeps(h, u, ts, id);
    InvNumbers(h, s);
    EvictedTimeless(h, u, ts);
    var e := Evicted(h, u, ts);
    assert Timeless(s, u);
    TimelessTwice(s, u, e);
    forall i | i in e.mapInfo ensures TimesFrom(s, i, e.mapInfo[i]) {}
  }

  lemma GoodTimes(h: Hashes, s: AddrMan, a: Service, nTime: int)
    requires Inv(h, s) && TimesOk(s)
    ensures TimesOk(Good(h, s, a, nTime)) <==> (Knows(s, a) ==> nTime > 0)
  {
    hide Inv, MadeTried;
    if Knows(s, a) {
      var id := s.mapAddr[a.ip];
      var info := s.mapInfo[id].(nLastSuccess := nTime, nLastTry := nTime, nAttempts := 0);
      var t := SetInfo(s, id, info);
      if info.fInTried {
        assert TimeOk(t.mapInfo[id]) <==> nTime > 0;
      } else {
        InvParts(h, s);
        TouchKeeps(h, s, id, info, {});
        BothParts(h, t);
        MadeTriedTimes(h, t, id);
        var r := MadeTried(h, t, id);
        forall i | i in r.mapInfo && i != id ensures TimeOk(r.mapInfo[i]) { assert TimesFrom(t, i, r.mapInfo[i]); }
        assert TimeOk(r.mapInfo[id]) <==> nTime > 0;
      }
    }
  }

  lemma BothParts(h: Hashes, s: AddrMan)
    requires Core(h, s) && Live(s, {})
    ensures Inv(h, s)
  {}

  /** Readings that keep the recorded times in order: of a service that is not known any may come. */
  predicate Timely(s: AddrMan, op: Op) {
    match op
    case GoodOp(a, nTime) => Knows(s, a) ==> nTime > 0
    case AttemptOp(a, nTime) => Knows(s, a) ==> nTime >= 0
    case _ => true
  }

  /** One step keeps the recorded times in order exactly if its reading is positive, or at least not negative. */
  lemma StepTimes(h: Hashes, s: AddrMan, op: Op)
    requires Inv(h, s) && TimesOk(s)
    ensures TimesOk(Step(h, s, op)) <==> Timely(s, op)
  {
    hide Inv, Add, Good, Shuffled;
    match op
    case AddOp(addr, source, nTimePenalty, isRoutable, now, roll) =>
      InvNumbers(h, s);
      AddTimeless(h, s, addr, source, nTimePenalty, isRoutable, now, roll);
      TimelessKeeps(s, Step(h, s, op));
    case GoodOp(a, nTime) => GoodTimes(h, s, a, nTime);
    case AttemptOp(a, nTime) =>
      if Knows(s, a) { assert TimeOk(Attempt(s, a, nTime).mapInfo[s.mapAddr[a.ip]]) <==> nTime >= 0; }
    case ConnectedOp(a, nTime) =>
    case GetAddrOp(now, rnd) =>
      NothingHanded(s);
      ShuffledTimeless(h, s, 0, AddrLimit(s), now, rnd, []);
      TimelessKeeps(s, Step(h, s, op));
  }

  // ----- The history of an entry -----

  /** The entry that a report of a connection is about. */
  predicate IsAbout(s: AddrMan, a: Service, id: int) {
    Knows(s, a) && s.mapAddr[a.ip] == id
  }

  /** What a step makes of an entry's history: an attempt adds one, a success starts anew, nothing else counts. */
  ghost predicate HistoryAfter(s: AddrMan, op: Op, id: int, info: Info)
    requires id in s.mapInfo
  {
    var old_ := s.mapInfo[id];
    match op
    case GoodOp(a, nTime) => if IsAbout(s, a, id)
      then SameHistory(old_.(nLastTry := nTime, nLastSuccess := nTime, nAttempts := 0), info) && info.fInTried
      else SameHistory(old_, info)
    case AttemptOp(a, nTime) => SameHistory(if IsAbout(s, a, id) then old_.(nLastTry := nTime, nAttempts := old_.nAttempts + 1) else old_, info)
    case _ => SameHistory(old_, info)
  }

  lemma GoodHistory(h: Hashes, s: AddrMan, a: Service, nTime: int)
    requires Inv(h, s)
    ensures var t := Good(h, s, a, nTime);
      forall id :: id in t.mapInfo ==> id in s.mapInfo && HistoryAfter(s, GoodOp(a, nTime), id, t.mapInfo[id])
  {
    hide Inv, MadeTried;
    if Knows(s, a) {
      var id := s.mapAddr[a.ip];
      var info := s.mapInfo[id].(nLastSuccess := nTime, nLastTry := nTime, nAttempts := 0);
      var t := SetInfo(s, id, info);
      if !info.fInTried {
        InvParts(h, s);
        TouchKeeps(h, s, id, info, {});
        BothParts(h, t);
        MadeTriedTimes(h, t, id);
        NothingComes(h, t, id);
        var r := MadeTried(h, t, id);
        forall i | i in r.mapInfo ensures i in s.mapInfo && HistoryAfter(s, GoodOp(a, nTime), i, r.mapInfo[i]) {
          if i != id { assert TimesFrom(t, i, r.mapInfo[i]); }
        }
      }
    }
  }

  /** MakeTried makes no entries. */
  lemma NothingComes(h: Hashes, s: AddrMan, id: int)
    requires Inv(h, s) && id in s.mapInfo && !s.mapInfo[id].fInTried
    ensures MadeTried(h, s, id).mapInfo.Keys <= s.mapInfo.Keys
  {
    hide Inv, MadeTried;
    InvNumbers(h, s);
    MadeTriedKeeps(h, s, id);
    InvNumbers(h, MadeTried(h, s, id));
    MadeTriedTimes(h, s, id);
    CountStays(h, s, id);
    var t := MadeTried(h, s, id);
    forall i | i in t.mapInfo ensures i in s.mapInfo { if i != id { assert TimesFrom(s, i, t.mapInfo[i]); } }
  }

  lemma CountStays(h: Hashes, s: AddrMan, id: int)
    requires id in s.mapInfo
    ensures MadeTried(h, s, id).nIdCount == s.nIdCount
  {
    hide ClearNew, Hashes.TriedSlot, HomeSlot;
    var u, ts := Unlisted(s, id), h.TriedSlot(s.mapInfo[id].service);
    if ts in u.vvTried && u.vvTried[ts] in u.mapInfo {
      var prev := u.vvTried[ts];
      var f := FromTried(h, u, prev);
      ClearNewCount(f, HomeSlot(h, f.mapInfo[prev], f.mapInfo[prev].source));
    }
  }

  lemma ClearNewCount(s: AddrMan, sl: Slot)
    ensures ClearNew(s, sl).nIdCount == s.nIdCount
  {}

  /** One step: an entry's history moves as HistoryAfter says, and a new entry has none. */
  lemma StepHistory(h: Hashes, s: AddrMan, op: Op, id: int)
    requires Inv(h, s) && id in Step(h, s, op).mapInfo
    ensures var info := Step(h, s, op).mapInfo[id];
      if id in s.mapInfo then HistoryAfter(s, op, id, info) else info.nLastTry == info.nLastSuccess == info.nAttempts == 0
  {
    hide Inv, Add, Good, Shuffled;
    match op
    case AddOp(addr, source, nTimePenalty, isRoutable, now, roll) =>
      InvNumbers(h, s);
      AddTimeless(h, s, addr, source, nTimePenalty, isRoutable, now, roll);
      assert TimesFrom(s, id, Step(h, s, op).mapInfo[id]);
    case GoodOp(a, nTime) => GoodHistory(h, s, a, nTime);
    case AttemptOp(a, nTime) =>
    case ConnectedOp(a, nTime) =>
    case GetAddrOp(now, rnd) =>
      NothingHanded(s);
      ShuffledTimeless(h, s, 0, AddrLimit(s), now, rnd, []);
      assert TimesFrom(s, id, Step(h, s, op).mapInfo[id]);
  }

  /** How many attempts on an entry a run reports since it came, or since the last success. */
  ghost function AttemptsIn(h: Hashes, ops: seq<Op>, id: int): nat {
    if ops == [] then 0
    else
      var s, op := Run(h, Empty, ops[..|ops| - 1]), ops[|ops| - 1];
      if id !in s.mapInfo || (op.GoodOp? && IsAbout(s, op.service, id)) then 0
      else AttemptsIn(h, ops[..|ops| - 1], id) + if op.AttemptOp? && IsAbout(s, op.service, id) then 1 else 0
  }

  /** In every state reached the recorded number of attempts is that of the reports. */
  lemma {:induction false} AttemptsAreCounted(h: Hashes, ops: seq<Op>, id: int)
    requires id in Run(h, Empty, ops).mapInfo
    ensures Run(h, Empty, ops).mapInfo[id].nAttempts == AttemptsIn(h, ops, id)
  {
    hide Inv, Step, IsAbout;
    if ops != [] {
      var n := |ops| - 1;
      var s := Run(h, Empty, ops[..n]);
      ReachableStatesSatisfyInv(h, ops[..n]);
      StepHistory(h, s, ops[n], id);
      if id in s.mapInfo { AttemptsAreCounted(h, ops[..n], id); }
    }
  }

  // ----- Check_ -----

  /** Over any run in which each step is timely all tests of Check_ hold but the one on the key, whatever the hashes. */
  lemma {:induction false} TimelyRunsPassCheck(h: Hashes, ops: seq<Op>)
    requires forall i {:trigger ops[i]} :: 0 <= i < |ops| ==> Timely(Run(h, Empty, ops[..i]), ops[i])
    ensures CheckPasses(h, Run(h, Empty, ops)) && TimesOk(Run(h, Empty, ops))
  {
    hide CheckPasses, Inv, Step, TimesOk, Timely;
    ReachableStatesSatisfyInv(h, ops);
    InvPassesCheck(h, Run(h, Empty, ops));
    if ops == [] {
      NoTimes();
    } else {
      var n := |ops| - 1;
      forall i | 0 <= i < n ensures Timely(Run(h, Empty, ops[..n][..i]), ops[..n][i]) { assert ops[..n][..i] == ops[..i]; }
      TimelyRunsPassCheck(h, ops[..n]);
      ReachableStatesSatisfyInv(h, ops[..n]);
      StepTimes(h, Run(h, Empty, ops[..n]), ops[n]);
    }
  }

  lemma NoTimes()
    ensures TimesOk(Empty)
  {}
}
