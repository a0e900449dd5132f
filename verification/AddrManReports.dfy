/** What the address manager makes of announcements and of reported connections: times, further buckets, answers. */
module AddrManReports {
  import opened Arith
  import opened Powers
  import opened AddrManState
  import opened AddrManOps

  const MINUTE := 60
  const HOUR := 60 * MINUTE
  const DAY := 24 * HOUR

  // ----- Connections -----

  /** The time of a connected entry moves forward only, and stays at most twenty minutes behind the report. */
  lemma ConnectedIsSeen(s: AddrMan, a: Service, nTime: int)
    requires Knows(s, a)
    ensures var t, id := Connected(s, a, nTime), s.mapAddr[a.ip]; var was := s.mapInfo[id].nTime;
      && t == SetInfo(s, id, s.mapInfo[id].(nTime := t.mapInfo[id].nTime))
      && nTime - 20 * MINUTE <= t.mapInfo[id].nTime
      && (t.mapInfo[id].nTime != was ==> t.mapInfo[id].nTime == nTime > was + 20 * MINUTE)
  {
    assert s.mapInfo == s.mapInfo[s.mapAddr[a.ip] := s.mapInfo[s.mapAddr[a.ip]]];
  }

  // ----- Announcements of a known address -----

  /** An address is announced as online if it has been seen within a day. */
  function Interval(addr: Address, now: int): int {
    if now < addr.nTime + DAY then HOUR else DAY
  }

  /**
    The time of a known entry moves only to that of an announcement, less the penalty, and only if it is behind it by
    more than an hour or, for an address not seen within a day, a day; and it is never left further behind.
    */
  lemma RefreshedWhenBehind(info: Info, addr: Address, nTimePenalty: int, now: int)
    requires info.nTime >= 0 && nTimePenalty >= 0 && addr.nTime != 0
    ensures var r, shown := Refreshed(info, addr, nTimePenalty, now).nTime, addr.nTime - nTimePenalty;
      && shown - r <= Interval(addr, now)
      && (info.nTime == 0 ==> r == Max(0, shown))
      && (info.nTime != 0 && r != info.nTime ==> r == shown > info.nTime + Interval(addr, now))
  {}

  lemma UnknownTimeIsIgnored(info: Info, addr: Address, nTimePenalty: int, now: int)
    requires addr.nTime == 0
    ensures Refreshed(info, addr, nTimePenalty, now) == info.(nServices := info.nServices + addr.nServices)
  {}

  /** The announcement tells something, and the entry may still get into another bucket. */
  predicate MayGain(info: Info, addr: Address) {
    addr.nTime != 0 && (info.nTime == 0 || info.nTime < addr.nTime) && !info.fInTried && info.nRefCount != 8
  }

  lemma {:induction false} TwoToIsPower(n: nat)
    ensures TwoTo(n) == Pow(2, n)
  {
    if n > 0 { TwoToIsPower(n - 1); }
  }

  /** With n references another bucket is 2^n times harder to get: of as many equally likely draws one will do. */
  lemma OneDrawInTwoToTheN(info: Info, addr: Address, roll: nat)
    requires info.nRefCount >= 0 && roll < Pow(2, info.nRefCount)
    ensures TryAgain(info, addr, roll) <==> MayGain(info, addr) && roll == 0
  {
    hide TwoTo, Pow;
    TwoToIsPower(info.nRefCount);
    DivideUnique(roll, Pow(2, info.nRefCount), 0);
  }

  /** Only the remainder of the draw matters. */
  lemma DrawsRepeat(info: Info, addr: Address, roll: nat)
    requires info.nRefCount >= 0
    ensures Pow(2, info.nRefCount) > 0
    ensures TryAgain(info, addr, roll) == TryAgain(info, addr, roll % Pow(2, info.nRefCount))
  {
    hide TwoTo, Pow;
    var m := Pow(2, info.nRefCount);
    TwoToIsPower(info.nRefCount);
    PowPositive(2, info.nRefCount);
    DivideSplits(roll, m);
    DivideUnique(roll % m, m, 0);
  }

  /** A slot that an entry with references can take over: not its own, and free or held by a terrible entry. */
  predicate CanTake(s: AddrMan, sl: Slot, id: int, now: int) {
    sl !in s.vvNew || (s.vvNew[sl] != id && s.vvNew[sl] in s.mapInfo && s.mapInfo[s.vvNew[sl]].IsTerrible(now))
  }

  /** An announced entry that is known gains a reference exactly if its draw succeeds and its slot for that source can be taken. */
  lemma KnownGains(h: Hashes, s: AddrMan, addr: Address, source: NetAddr, nTimePenalty: int, now: int, roll: nat)
    requires Inv(h, s) && addr.service.ip in s.mapAddr
    ensures s.mapAddr[addr.service.ip] in s.mapInfo
    ensures var id := s.mapAddr[addr.service.ip];
      var r := Refreshed(s.mapInfo[id], addr, nTimePenalty, now);
      var t := Add(h, s, addr, source, nTimePenalty, true, now, roll).0;
      && id in t.mapInfo
      && t.mapInfo[id] == r.(nRandomPos := t.mapInfo[id].nRandomPos, nRefCount := r.nRefCount +
           if TryAgain(r, addr, roll) && CanTake(s, HomeSlot(h, r, source), id, now) then 1 else 0)
  {
    hide Core, Info.IsTerrible, Refreshed, TwoTo, Filed;
    InvParts(h, s);
    var id := s.mapAddr[addr.service.ip];
    AddressLeads(h, s, addr.service.ip);
    var r := Refreshed(s.mapInfo[id], addr, nTimePenalty, now);
    RefreshedLinks(s.mapInfo[id], addr, nTimePenalty, now);
    TouchKeeps(h, s, id, r, {});
    var t := SetInfo(s, id, r);
    SlotsOfKnown(h, t, id);
    if TryAgain(r, addr, roll) { FiledGains(h, t, id, source, now); }
  }

  lemma RefreshedLinks(info: Info, addr: Address, nTimePenalty: int, now: int)
    ensures Refreshed(info, addr, nTimePenalty, now).SameLinks(info)
  {}

  lemma AddressLeads(h: Hashes, s: AddrMan, ip: NetAddr)
    requires Core(h, s) && ip in s.mapAddr
    ensures s.mapAddr[ip] in s.mapInfo
  {
    assert AddrOk(s, ip);
  }

  lemma SlotsOfKnown(h: Hashes, s: AddrMan, id: int)
    requires Live(s, {}) && id in s.mapInfo
    ensures s.mapInfo[id].fInTried || s.mapInfo[id].nRefCount > 0
  {
    assert LiveId(s.mapInfo[id], id in {});
  }

  lemma FiledGains(h: Hashes, s: AddrMan, id: int, source: NetAddr, now: int)
    requires Core(h, s) && Live(s, {}) && id in s.mapInfo && s.mapInfo[id].nRefCount > 0
    ensures var t := Filed(h, s, id, source, now);
      && id in t.mapInfo
      && t.mapInfo[id] == s.mapInfo[id].(nRandomPos := t.mapInfo[id].nRandomPos, nRefCount := s.mapInfo[id].nRefCount +
           if CanTake(s, HomeSlot(h, s.mapInfo[id], source), id, now) then 1 else 0)
  {
    hide Core, Live, Info.IsTerrible, ClearNew;
    var us := HomeSlot(h, s.mapInfo[id], source);
    ClearNewKeeps(h, s, us, {});
  }

  // ----- Answers -----

  /** Add_ answers whether an address is routable and was not known; one that is not routable changes nothing. */
  lemma AddAnswers(h: Hashes, s: AddrMan, addr: Address, source: NetAddr, nTimePenalty: int, isRoutable: bool, now: int, roll: nat)
    requires Inv(h, s)
    ensures var (t, added) := Add(h, s, addr, source, nTimePenalty, isRoutable, now, roll);
      && (added <==> isRoutable && addr.service.ip !in s.mapAddr)
      && (!isRoutable ==> t == s)
  {
    hide Filed, AddKnown, Live;
    if addr.service.ip in s.mapAddr { AddressLeads(h, s, addr.service.ip); }
  }

  /** The most entries that GetAddr_ hands out: 23 percent of those there are, and 2500. */
  lemma LimitIsShare(s: AddrMan, n: int)
    ensures n <= AddrLimit(s) <==> n <= 2500 && 100 * n <= 23 * |s.vRandom|
  {}
}
