/** Which entries of the address manager are worth keeping and handing out, over the reports that come in. */
module AddrManQuality {
  import opened AddrManState
  import opened AddrManOps
  import opened AddrManTimes

  const MINUTE := 60
  const DAY := 24 * 60 * MINUTE

  predicate JustTried(info: Info, now: int) {
    info.nLastTry != 0 && now <= info.nLastTry + MINUTE
  }

  /** Within the last thirty days, and not ten minutes from the future. */
  predicate SeenLately(info: Info, now: int) {
    info.nTime != 0 && now - 30 * DAY <= info.nTime <= now + 10 * MINUTE
  }

  /** Three attempts without any success are enough, and ten if the last success is a week ago. */
  predicate GivenUp(info: Info, now: int) {
    (info.nLastSuccess == 0 && info.nAttempts >= 3) || (info.nLastSuccess < now - 7 * DAY && info.nAttempts >= 10)
  }

  lemma WorthKeeping(info: Info, now: int)
    ensures !info.IsTerrible(now) <==> JustTried(info, now) || (SeenLately(info, now) && !GivenUp(info, now))
  {}

  /** Without a new report an entry that is terrible, and not from the future, stays so. */
  lemma TerribleStays(info: Info, now: int, later: int)
    requires info.IsTerrible(now) && info.nTime <= now + 10 * MINUTE && now <= later
    ensures info.IsTerrible(later)
  {}

  /** After a success an entry is good for as long as it has been seen lately, and for a minute in any case. */
  lemma GoodWhileSeen(h: Hashes, s: AddrMan, a: Service, nTime: int, now: int)
    requires Inv(h, s) && Knows(s, a) && nTime > 0
    ensures var t := Good(h, s, a, nTime); var id := s.mapAddr[a.ip];
      id in t.mapInfo && t.mapInfo[id].service == a && (!t.mapInfo[id].IsTerrible(now) <==> now <= nTime + MINUTE || SeenLately(t.mapInfo[id], now))
  {
    hide Inv, Good;
    GoodKeeps(h, s, a, nTime);
    GoodHistory(h, s, a, nTime);
    var info := Good(h, s, a, nTime).mapInfo[s.mapAddr[a.ip]];
    assert HistoryAfter(s, GoodOp(a, nTime), s.mapAddr[a.ip], info);
    WorthKeeping(info, now);
  }

  /** In every state reached, an entry that never succeeded is given up with the third attempt reported, and not before. */
  lemma GivenUpAfterThree(h: Hashes, ops: seq<Op>, id: int, now: int)
    requires id in Run(h, Empty, ops).mapInfo && Run(h, Empty, ops).mapInfo[id].nLastSuccess == 0
    requires var info := Run(h, Empty, ops).mapInfo[id]; SeenLately(info, now) && !JustTried(info, now)
    ensures Run(h, Empty, ops).mapInfo[id].IsTerrible(now) <==> AttemptsIn(h, ops, id) >= 3
  {
    hide Run, AttemptsIn;
    AttemptsAreCounted(h, ops, id);
    WorthKeeping(Run(h, Empty, ops).mapInfo[id], now);
  }
}
