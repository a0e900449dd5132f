/** The cuckoo cache as values: what an insertion does to the slots, and what that means for the set they hold. */
module CuckooState {
  import opened Arith

  /** One place of the table: the element, its epoch flag and its garbage-collection flag. */
  datatype Slot<E> = Slot(elem: E, epoch: bool, garbage: bool)

  /** The eight hash functions, each giving any 32-bit number. */
  datatype Hasher<!E> = Hasher(hash: (nat, E) -> nat) {
    /** FastRange32: scale a 32-bit hash to the table size. */
    function Loc(select: nat, e: E, size: nat): (loc: nat)
      requires size > 0
      ensures loc < size
      ensures loc * TWO32 <= hash(select, e) % TWO32 * size < (loc + 1) * TWO32
    {
      var x := hash(select, e) % TWO32;
      MulMonotone(x, TWO32 - 1, size);
      x * size / TWO32
    }

    function Locs(e: E, size: nat): (locs: seq<nat>)
      requires size > 0
      ensures |locs| == 8 && forall i :: 0 <= i < 8 ==> locs[i] < size
    {
      seq(8, i requires 0 <= i < 8 => Loc(i, e, size))
    }
  }

  // ----- The displacement chain -----

  /** The first of the places that may be overwritten, or 8. */
  function FirstGarbage<E>(slots: seq<Slot<E>>, locs: seq<nat>, i: nat): (r: nat)
    requires |locs| == 8 && i <= 8 && forall k :: 0 <= k < 8 ==> locs[k] < |slots|
    ensures i <= r <= 8 && (r < 8 ==> slots[locs[r]].garbage) && forall k :: i <= k < r ==> !slots[locs[k]].garbage
    decreases 8 - i
  {
    if i == 8 || slots[locs[i]].garbage then i else FirstGarbage(slots, locs, i + 1)
  }

  lemma FirstGarbageIs<E>(slots: seq<Slot<E>>, locs: seq<nat>, i: nat)
    requires |locs| == 8 && i <= 8 && forall k :: 0 <= k < 8 ==> locs[k] < |slots|
    requires (forall k :: 0 <= k < i ==> !slots[locs[k]].garbage) && (i < 8 ==> slots[locs[i]].garbage)
    ensures FirstGarbage(slots, locs, 0) == i
  {
    hide FirstGarbage;
  }

  function IndexIn(locs: seq<nat>, loc: nat, i: nat): (r: nat)
    requires i <= |locs|
    ensures i <= r <= |locs| && (r < |locs| ==> locs[r] == loc) && forall k :: i <= k < r ==> locs[k] != loc
    decreases |locs| - i
  {
    if i == |locs| || locs[i] == loc then i else IndexIn(locs, loc, i + 1)
  }

  /** The place after the one the carried element comes from; the second one for a new element. */
  function NextLoc(locs: seq<nat>, lastLoc: nat): (loc: nat)
    requires |locs| == 8
    ensures loc in locs
  {
    locs[(1 + IndexIn(locs, lastLoc, 0)) % 8]
  }

  /** The table after an insertion, and the slot content that is no longer in it. */
  datatype Chain<E> = Chain(slots: seq<Slot<E>>, lost: Slot<E>)

  function Chase<E>(h: Hasher<E>, slots: seq<Slot<E>>, e: E, epoch: bool, lastLoc: nat, depth: nat): (c: Chain<E>)
    requires |slots| > 0
    ensures |c.slots| == |slots|
    decreases depth
  {
    var locs := h.Locs(e, |slots|);
    if depth == 0 then Chain(slots, Slot(e, epoch, false)) else
      var i := FirstGarbage(slots, locs, 0);
      if i < 8 then Chain(slots[locs[i] := Slot(e, epoch, false)], slots[locs[i]])
      else
        var loc := NextLoc(locs, lastLoc);
        Chase(h, slots[loc := Slot(e, epoch, slots[loc].garbage)], slots[loc].elem, slots[loc].epoch, loc, depth - 1)
  }

  // ----- The invariant -----

  ghost predicate AtHome<E>(h: Hasher<E>, slots: seq<Slot<E>>, none: E) {
    forall i :: 0 <= i < |slots| && slots[i].elem != none ==> i in h.Locs(slots[i].elem, |slots|)
  }

  ghost predicate Once<E>(slots: seq<Slot<E>>, none: E) {
    forall i, j :: 0 <= i < j < |slots| && slots[i].elem == slots[j].elem ==> slots[i].elem == none
  }

  ghost predicate Inv<E>(h: Hasher<E>, slots: seq<Slot<E>>, none: E) {
    |slots| > 0 && AtHome(h, slots, none) && Once(slots, none)
  }

  ghost predicate Holds<E>(slots: seq<Slot<E>>, e: E) {
    exists i :: 0 <= i < |slots| && slots[i].elem == e
  }

  /** The answer of `contains`: the element is at one of its eight places. */
  ghost predicate Found<E>(h: Hasher<E>, slots: seq<Slot<E>>, e: E)
    requires |slots| > 0
  {
    exists k :: 0 <= k < 8 && slots[h.Locs(e, |slots|)[k]].elem == e
  }

  /** For every element but the default one, which fills unused places, `contains` is membership of the table. */
  lemma ContainsIsMembership<E>(h: Hasher<E>, slots: seq<Slot<E>>, none: E, e: E)
    requires Inv(h, slots, none)
    ensures Found(h, slots, e) ==> Holds(slots, e)
    ensures e != none && Holds(slots, e) ==> Found(h, slots, e)
  {}

  // ----- What a chain keeps -----

  /** An insertion trades: the table gains the new element and loses one slot's content, all else stays in it. */
  lemma {:induction false} ChaseTrades<E>(h: Hasher<E>, slots: seq<Slot<E>>, e: E, epoch: bool, lastLoc: nat, depth: nat)
    requires |slots| > 0
    ensures var c := Chase(h, slots, e, epoch, lastLoc, depth);
      |c.slots| == |slots| && multiset(c.slots) + multiset{c.lost} == multiset(slots) + multiset{Slot(e, epoch, false)}
    decreases depth
  {
    hide Hasher.Locs, FirstGarbage, NextLoc;
    var locs := h.Locs(e, |slots|);
    if depth > 0 {
      var i := FirstGarbage(slots, locs, 0);
      if i < 8 {
        PutTrades(slots, locs[i], Slot(e, epoch, false));
      } else {
        var loc := NextLoc(locs, lastLoc);
        PutTrades(slots, loc, Slot(e, epoch, slots[loc].garbage));
        ChaseTrades(h, slots[loc := Slot(e, epoch, slots[loc].garbage)], slots[loc].elem, slots[loc].epoch, loc, depth - 1);
      }
    }
  }

  lemma PutTrades<E>(slots: seq<Slot<E>>, i: nat, x: Slot<E>)
    requires i < |slots|
    ensures multiset(slots[i := x]) + multiset{slots[i]} == multiset(slots) + multiset{x}
  {}

  /** A carried element that is in no place comes to rest in one of its own. */
  lemma {:induction false} ChaseKeepsInv<E>(h: Hasher<E>, slots: seq<Slot<E>>, none: E, e: E, epoch: bool, lastLoc: nat, depth: nat)
    requires |slots| > 0 && Inv(h, slots, none) && (e != none ==> !Holds(slots, e))
    ensures var c := Chase(h, slots, e, epoch, lastLoc, depth);
      Inv(h, c.slots, none) && (c.lost.elem != none ==> !Holds(c.slots, c.lost.elem))
    decreases depth
  {
    hide Inv, Holds, Hasher.Locs, FirstGarbage, NextLoc;
    var locs := h.Locs(e, |slots|);
    if depth > 0 {
      var i := FirstGarbage(slots, locs, 0);
      if i < 8 {
        PutKeepsInv(h, slots, none, locs[i], Slot(e, epoch, false));
      } else {
        var loc := NextLoc(locs, lastLoc);
        PutKeepsInv(h, slots, none, loc, Slot(e, epoch, slots[loc].garbage));
        ChaseKeepsInv(h, slots[loc := Slot(e, epoch, slots[loc].garbage)], none, slots[loc].elem, slots[loc].epoch, loc, depth - 1);
      }
    }
  }

  lemma PutKeepsInv<E>(h: Hasher<E>, slots: seq<Slot<E>>, none: E, loc: nat, x: Slot<E>)
    requires Inv(h, slots, none) && loc < |slots| && (x.elem != none ==> !Holds(slots, x.elem))
    requires loc in h.Locs(x.elem, |slots|)
    ensures Inv(h, slots[loc := x], none)
    ensures slots[loc].elem != none ==> !Holds(slots[loc := x], slots[loc].elem)
  {}

  /**
    Inserting an element that is not in the table: afterwards exactly the old elements and the new one
    are found, except for the lost one, which may be the new element itself.
    */
  lemma InsertedMembership<E>(h: Hasher<E>, slots: seq<Slot<E>>, none: E, e: E, lastLoc: nat, depth: nat, x: E)
    requires Inv(h, slots, none) && !Found(h, slots, e) && x != none && e != none
    ensures var c := Chase(h, slots, e, true, lastLoc, depth);
      Inv(h, c.slots, none) && (Found(h, c.slots, x) <==> x != c.lost.elem && (x == e || Found(h, slots, x)))
  {
    ContainsIsMembership(h, slots, none, e);
    ContainsIsMembership(h, slots, none, x);
    ChaseKeepsInv(h, slots, none, e, true, lastLoc, depth);
    ChaseTrades(h, slots, e, true, lastLoc, depth);
    var c := Chase(h, slots, e, true, lastLoc, depth);
    ContainsIsMembership(h, c.slots, none, x);
    TradedMembership(slots, c.slots, Slot(e, true, false), c.lost, x);
  }

  lemma TradedMembership<E>(slots: seq<Slot<E>>, slots': seq<Slot<E>>, gained: Slot<E>, lost: Slot<E>, x: E)
    requires multiset(slots') + multiset{lost} == multiset(slots) + multiset{gained}
    ensures x != lost.elem ==> (Holds(slots', x) <==> x == gained.elem || Holds(slots, x))
  {
    if x != lost.elem && x == gained.elem {
      assert gained in multiset(slots) + multiset{gained};
      assert gained in multiset(slots');
      var i :| 0 <= i < |slots'| && slots'[i] == gained;
    }
    if x != lost.elem && Holds(slots, x) {
      var i :| 0 <= i < |slots| && slots[i].elem == x;
      assert slots[i] in multiset(slots) + multiset{gained};
      assert slots[i] in multiset(slots');
      var j :| 0 <= j < |slots'| && slots'[j] == slots[i];
    }
    if x != lost.elem && Holds(slots', x) && x != gained.elem {
      var i :| 0 <= i < |slots'| && slots'[i].elem == x;
      assert slots'[i] in multiset(slots') + multiset{lost};
      assert slots'[i] in multiset(slots);
      var j :| 0 <= j < |slots| && slots[j] == slots'[i];
    }
  }

  /**
    If the chain ends at a place that may be overwritten, every element marked to be kept is still in the
    table, with its epoch flag, and so is the new one.
    */
  lemma KeptSlotsSurvive<E>(h: Hasher<E>, slots: seq<Slot<E>>, e: E, lastLoc: nat, depth: nat, s: Slot<E>)
    requires |slots| > 0
    ensures var c := Chase(h, slots, e, true, lastLoc, depth);
      c.lost.garbage && (s == Slot(e, true, false) || (s in slots && !s.garbage)) ==> s in c.slots
  {
    ChaseTrades(h, slots, e, true, lastLoc, depth);
    var c := Chase(h, slots, e, true, lastLoc, depth);
    if c.lost.garbage && (s == Slot(e, true, false) || (s in slots && !s.garbage)) {
      assert s in multiset(slots) + multiset{Slot(e, true, false)};
      assert s in multiset(c.slots);
    }
  }

  /** With an overwritable place among its own eight, an element goes straight there, whatever the depth limit. */
  lemma RoomAtHome<E>(h: Hasher<E>, slots: seq<Slot<E>>, e: E, lastLoc: nat, depth: nat, k: nat)
    requires |slots| > 0 && depth > 0 && k < 8 && slots[h.Locs(e, |slots|)[k]].garbage
    ensures var c := Chase(h, slots, e, true, lastLoc, depth); c.lost.garbage && Found(h, c.slots, e)
  {}

  // ----- When the new element stays -----

  /** The places at which a chain swaps, in order: depth of them, or fewer if it ends at an overwritable place. */
  function Visits<E>(h: Hasher<E>, slots: seq<Slot<E>>, e: E, lastLoc: nat, depth: nat): (v: seq<nat>)
    requires |slots| > 0
    ensures |v| <= depth
    decreases depth
  {
    var locs := h.Locs(e, |slots|);
    if depth == 0 || FirstGarbage(slots, locs, 0) < 8 then [] else
      var loc := NextLoc(locs, lastLoc);
      [loc] + Visits(h, slots[loc := slots[loc].(elem := e)], slots[loc].elem, loc, depth - 1)
  }

  /** An element about to be put down at the first of these places is in hand again after the last one. */
  predicate EndsInHand(v: seq<nat>)
    decreases |v|, 1
  {
    v == [] || PickedUp(v[1..], v[0])
  }

  /** An element that lies at a place is picked up by a visit to it, and is in hand after the last one. */
  predicate PickedUp(v: seq<nat>, at: nat)
    decreases |v|, 0
  {
    v != [] && if v[0] == at then EndsInHand(v[1..]) else PickedUp(v[1..], at)
  }

  ghost predicate OnlyAt<E>(slots: seq<Slot<E>>, e: E, at: nat) {
    at < |slots| && slots[at].elem == e && forall i :: 0 <= i < |slots| && slots[i].elem == e ==> i == at
  }

  /** The places visited do not depend on the epoch flags. */
  lemma {:induction false} VisitsIgnoreEpochs<E>(h: Hasher<E>, slots: seq<Slot<E>>, slots': seq<Slot<E>>, e: E, lastLoc: nat, depth: nat)
    requires |slots| > 0 && |slots'| == |slots|
    requires forall i :: 0 <= i < |slots| ==> slots'[i] == slots[i].(epoch := slots'[i].epoch)
    ensures Visits(h, slots', e, lastLoc, depth) == Visits(h, slots, e, lastLoc, depth)
    decreases depth
  {
    hide Hasher.Locs, Hasher.Loc, NextLoc, FirstGarbage;
    var locs := h.Locs(e, |slots|);
    SameFirstGarbage(slots, slots', locs, 0);
    if depth > 0 && FirstGarbage(slots, locs, 0) == 8 {
      var loc := NextLoc(locs, lastLoc);
      VisitsIgnoreEpochs(h, slots[loc := slots[loc].(elem := e)], slots'[loc := slots'[loc].(elem := e)], slots[loc].elem, loc, depth - 1);
    }
  }

  lemma {:induction false} SameFirstGarbage<E>(slots: seq<Slot<E>>, slots': seq<Slot<E>>, locs: seq<nat>, i: nat)
    requires |locs| == 8 && i <= 8 && |slots'| == |slots| && forall k :: 0 <= k < 8 ==> locs[k] < |slots|
    requires forall i :: 0 <= i < |slots| ==> slots'[i].garbage == slots[i].garbage
    ensures FirstGarbage(slots', locs, i) == FirstGarbage(slots, locs, i)
    decreases 8 - i
  {
    if i < 8 { SameFirstGarbage(slots, slots', locs, i + 1); }
  }

  /** Chase and Visits take their first step together. */
  lemma FirstStep<E>(h: Hasher<E>, slots: seq<Slot<E>>, e: E, epoch: bool, lastLoc: nat, depth: nat)
    requires |slots| > 0 && depth > 0 && FirstGarbage(slots, h.Locs(e, |slots|), 0) == 8
    ensures var loc := NextLoc(h.Locs(e, |slots|), lastLoc);
      loc < |slots| && (
      var next := slots[loc := Slot(e, epoch, slots[loc].garbage)];
      && Chase(h, slots, e, epoch, lastLoc, depth) == Chase(h, next, slots[loc].elem, slots[loc].epoch, loc, depth - 1)
      && Visits(h, slots, e, lastLoc, depth) == [loc] + Visits(h, next, slots[loc].elem, loc, depth - 1))
  {
    hide Hasher.Locs, NextLoc, Hasher.Loc, FirstGarbage;
    var loc := NextLoc(h.Locs(e, |slots|), lastLoc);
    var next := slots[loc := Slot(e, epoch, slots[loc].garbage)];
    VisitsIgnoreEpochs(h, next, slots[loc := slots[loc].(elem := e)], slots[loc].elem, loc, depth - 1);
  }

  lemma NoStep<E>(h: Hasher<E>, slots: seq<Slot<E>>, e: E, epoch: bool, lastLoc: nat, depth: nat)
    requires |slots| > 0 && (depth == 0 || FirstGarbage(slots, h.Locs(e, |slots|), 0) < 8)
    ensures Visits(h, slots, e, lastLoc, depth) == []
    ensures var c := Chase(h, slots, e, epoch, lastLoc, depth); if depth == 0 then c.lost == Slot(e, epoch, false) else c.lost.garbage
  {
    hide Hasher.Locs, NextLoc;
  }

  /** A chain that visits fewer places than its limit allows ends at an overwritable one, and only such a chain. */
  lemma {:induction false} ChaseEnds<E>(h: Hasher<E>, slots: seq<Slot<E>>, e: E, epoch: bool, lastLoc: nat, depth: nat)
    requires |slots| > 0
    ensures Chase(h, slots, e, epoch, lastLoc, depth).lost.garbage <==> |Visits(h, slots, e, lastLoc, depth)| < depth
    decreases depth
  {
    hide Hasher.Locs, Hasher.Loc, NextLoc, Chase, Visits, FirstGarbage;
    if depth > 0 && FirstGarbage(slots, h.Locs(e, |slots|), 0) == 8 {
      var loc := NextLoc(h.Locs(e, |slots|), lastLoc);
      FirstStep(h, slots, e, epoch, lastLoc, depth);
      ChaseEnds(h, slots[loc := Slot(e, epoch, slots[loc].garbage)], slots[loc].elem, slots[loc].epoch, loc, depth - 1);
    } else {
      NoStep(h, slots, e, epoch, lastLoc, depth);
    }
  }

  lemma PutOver<E>(slots: seq<Slot<E>>, loc: nat, s: Slot<E>, x: E, at: nat)
    requires OnlyAt(slots, x, at) && loc < |slots| && s.elem != x
    ensures loc == at ==> !Holds(slots[loc := s], x)
    ensures loc != at ==> OnlyAt(slots[loc := s], x, at) && slots[loc].elem != x
  {}

  /** While another element is carried and x lies at a place, the list of places says whether x is left over. */
  lemma {:induction false} LyingIsLost<E>(h: Hasher<E>, slots: seq<Slot<E>>, e: E, epoch: bool, lastLoc: nat, depth: nat, x: E, at: nat)
    requires |slots| > 0 && e != x && OnlyAt(slots, x, at)
    ensures var c := Chase(h, slots, e, epoch, lastLoc, depth);
      !c.lost.garbage ==> (c.lost.elem == x <==> PickedUp(Visits(h, slots, e, lastLoc, depth), at))
    decreases depth
  {
    hide Hasher.Locs, Hasher.Loc, NextLoc, Chase, Visits, FirstGarbage, OnlyAt, Holds;
    if depth > 0 && FirstGarbage(slots, h.Locs(e, |slots|), 0) == 8 {
      var loc := NextLoc(h.Locs(e, |slots|), lastLoc);
      var next := slots[loc := Slot(e, epoch, slots[loc].garbage)];
      FirstStep(h, slots, e, epoch, lastLoc, depth);
      PutOver(slots, loc, next[loc], x, at);
      ghost var v := Visits(h, next, slots[loc].elem, loc, depth - 1);
      assert ([loc] + v)[1..] == v;
      if loc == at {
        assert slots[loc].elem == x by { HeldAt(slots, x, at); }
        CarriedIsLost(h, next, slots[loc].epoch, loc, depth - 1, x);
      } else {
        LyingIsLost(h, next, slots[loc].elem, slots[loc].epoch, loc, depth - 1, x, at);
      }
    } else {
      NoStep(h, slots, e, epoch, lastLoc, depth);
    }
  }

  lemma HeldAt<E>(slots: seq<Slot<E>>, x: E, at: nat)
    requires OnlyAt(slots, x, at)
    ensures at < |slots| && slots[at].elem == x
  {}

  lemma PutDown<E>(slots: seq<Slot<E>>, loc: nat, s: Slot<E>)
    requires loc < |slots| && !Holds(slots, s.elem)
    ensures OnlyAt(slots[loc := s], s.elem, loc) && slots[loc].elem != s.elem
  {}

  /** While x itself is carried and in no place, the list of places says whether it is left over. */
  lemma {:induction false} CarriedIsLost<E>(h: Hasher<E>, slots: seq<Slot<E>>, epoch: bool, lastLoc: nat, depth: nat, x: E)
    requires |slots| > 0 && !Holds(slots, x)
    ensures var c := Chase(h, slots, x, epoch, lastLoc, depth);
      !c.lost.garbage ==> (c.lost.elem == x <==> EndsInHand(Visits(h, slots, x, lastLoc, depth)))
    decreases depth
  {
    hide Hasher.Locs, Hasher.Loc, NextLoc, Chase, Visits, FirstGarbage, OnlyAt, Holds;
    if depth > 0 && FirstGarbage(slots, h.Locs(x, |slots|), 0) == 8 {
      var loc := NextLoc(h.Locs(x, |slots|), lastLoc);
      var next := slots[loc := Slot(x, epoch, slots[loc].garbage)];
      FirstStep(h, slots, x, epoch, lastLoc, depth);
      PutDown(slots, loc, next[loc]);
      ghost var v := Visits(h, next, slots[loc].elem, loc, depth - 1);
      assert ([loc] + v)[1..] == v;
      LyingIsLost(h, next, slots[loc].elem, slots[loc].epoch, loc, depth - 1, x, loc);
    } else {
      NoStep(h, slots, x, epoch, lastLoc, depth);
    }
  }

  // ----- Epochs -----

  /** How many of the first n places hold an element of this epoch that is to be kept. */
  function Unused<E>(slots: seq<Slot<E>>, n: nat): (r: nat)
    requires n <= |slots|
    ensures r <= n
  {
    if n == 0 then 0 else Unused(slots, n - 1) + Counted(slots[n - 1])
  }

  function Counted<E>(s: Slot<E>): nat {
    if s.epoch && !s.garbage then 1 else 0
  }

  lemma {:induction false} UnusedUpdate<E>(slots: seq<Slot<E>>, i: nat, x: Slot<E>, n: nat)
    requires i < |slots| && n <= |slots|
    ensures Unused(slots[i := x], n) == Unused(slots, n) + if i < n then Counted(x) - Counted(slots[i]) else 0
  {
    if n > 0 { UnusedUpdate(slots, i, x, n - 1); }
  }

  /** A chain adds at most one element to the epoch. */
  lemma {:induction false} ChaseUnused<E>(h: Hasher<E>, slots: seq<Slot<E>>, e: E, epoch: bool, lastLoc: nat, depth: nat)
    requires |slots| > 0
    ensures var c := Chase(h, slots, e, epoch, lastLoc, depth);
      |c.slots| == |slots| && Unused(c.slots, |c.slots|) + Counted(c.lost) == Unused(slots, |slots|) + Counted(Slot(e, epoch, false))
    decreases depth
  {
    hide Hasher.Locs, Hasher.Loc, FirstGarbage, NextLoc, Unused;
    var locs := h.Locs(e, |slots|);
    if depth > 0 {
      var i := FirstGarbage(slots, locs, 0);
      if i < 8 {
        UnusedUpdate(slots, locs[i], Slot(e, epoch, false), |slots|);
      } else {
        var loc := NextLoc(locs, lastLoc);
        UnusedUpdate(slots, loc, Slot(e, epoch, slots[loc].garbage), |slots|);
        ChaseUnused(h, slots[loc := Slot(e, epoch, slots[loc].garbage)], slots[loc].elem, slots[loc].epoch, loc, depth - 1);
      }
    }
  }

  /** A new epoch: what the last one did not use may go, what it did starts anew. */
  function Turned<E>(slots: seq<Slot<E>>): (r: seq<Slot<E>>)
    ensures |r| == |slots|
  {
    seq(|slots|, i requires 0 <= i < |slots| => Slot(slots[i].elem, false, if slots[i].epoch then slots[i].garbage else true))
  }

  lemma {:induction false} TurnedUnused<E>(slots: seq<Slot<E>>, n: nat)
    requires n <= |slots|
    ensures Unused(Turned(slots), n) == 0
  {
    if n > 0 { TurnedUnused(slots, n - 1); }
  }

  // ----- The cache and its operations -----

  datatype State<E> = State(slots: seq<Slot<E>>, counter: nat)

  datatype Params<!E> = Params(h: Hasher<E>, none: E, epochSize: nat, depthLimit: nat)

  function EpochSize(size: nat): nat {
    Max(1, 45 * size % TWO32 / 100)
  }

  /** The product is taken in 32 bits, so 45 percent of the size only comes out below 95443718 places. */
  lemma EpochSizeIsShare(size: nat)
    ensures EpochSize(size) == Max(1, 45 * size / 100) <==> size < 95443718
  {}

  function EpochChecked<E>(p: Params<E>, s: State<E>): (t: State<E>)
    ensures |t.slots| == |s.slots|
  {
    if s.counter != 0 then s.(counter := s.counter - 1) else
      var unused := Unused(s.slots, |s.slots|);
      if unused >= p.epochSize then State(Turned(s.slots), p.epochSize)
      else s.(counter := Max(1, Max(p.epochSize / 16, p.epochSize - unused)))
  }

  /** The first of an element's places that holds it, or 8. */
  function FindElem<E(==)>(slots: seq<Slot<E>>, locs: seq<nat>, e: E, i: nat): (r: nat)
    requires |locs| == 8 && i <= 8 && forall k :: 0 <= k < 8 ==> locs[k] < |slots|
    ensures i <= r <= 8 && (r < 8 ==> slots[locs[r]].elem == e) && forall k :: i <= k < r ==> slots[locs[k]].elem != e
    decreases 8 - i
  {
    if i == 8 || slots[locs[i]].elem == e then i else FindElem(slots, locs, e, i + 1)
  }

  const INVALID := TWO32 - 1

  function Insert<E(==)>(p: Params<E>, s: State<E>, e: E): (t: State<E>)
    requires |s.slots| > 0
    ensures |t.slots| == |s.slots|
  {
    var t := EpochChecked(p, s);
    var locs := p.h.Locs(e, |t.slots|);
    var i := FindElem(t.slots, locs, e, 0);
    if i < 8 then t.(slots := t.slots[locs[i] := Slot(t.slots[locs[i]].elem, true, false)])
    else t.(slots := Chase(p.h, t.slots, e, true, INVALID, p.depthLimit).slots)
  }

  function Contains<E(==)>(p: Params<E>, s: State<E>, e: E, erase: bool): (State<E>, bool)
    requires |s.slots| > 0
  {
    var locs := p.h.Locs(e, |s.slots|);
    var i := FindElem(s.slots, locs, e, 0);
    (if i < 8 && erase then s.(slots := s.slots[locs[i] := s.slots[locs[i]].(garbage := true)]) else s, i < 8)
  }

  lemma FindElemIsFound<E>(h: Hasher<E>, slots: seq<Slot<E>>, e: E)
    requires |slots| > 0
    ensures FindElem(slots, h.Locs(e, |slots|), e, 0) < 8 <==> Found(h, slots, e)
  {}

  /** What every operation keeps; the second part bounds the elements of one epoch. */
  ghost predicate CacheInv<E>(p: Params<E>, s: State<E>) {
    Inv(p.h, s.slots, p.none) && EpochFits(p, s)
  }

  /**
    The check of the epoch is never put off for too long: at most the epoch size and a sixteenth of it
    can be inserted and still unused when the next check comes.
    */
  ghost predicate EpochFits<E>(p: Params<E>, s: State<E>) {
    Unused(s.slots, |s.slots|) + s.counter <= p.epochSize + Max(1, p.epochSize / 16)
  }

  lemma SameElems<E>(h: Hasher<E>, slots: seq<Slot<E>>, slots': seq<Slot<E>>, none: E)
    requires Inv(h, slots, none) && |slots'| == |slots| && forall i :: 0 <= i < |slots| ==> slots'[i].elem == slots[i].elem
    ensures Inv(h, slots', none)
    ensures forall x :: Holds(slots', x) <==> Holds(slots, x)
  {
    forall x ensures Holds(slots', x) <==> Holds(slots, x) {
      if Holds(slots, x) { var i :| 0 <= i < |slots| && slots[i].elem == x; assert slots'[i].elem == x; }
      if Holds(slots', x) { var i :| 0 <= i < |slots| && slots'[i].elem == x; assert slots[i].elem == x; }
    }
  }

  /** How many elements an epoch has used: one for each place with its flag that is to be kept. */
  lemma {:induction false} UnusedIsCount<E>(slots: seq<Slot<E>>, n: nat, counted: set<nat>)
    requires n <= |slots| && counted == set i: nat | i < n && slots[i].epoch && !slots[i].garbage
    ensures Unused(slots, n) == |counted|
  {
    if n > 0 {
      var before := set i: nat | i < n - 1 && slots[i].epoch && !slots[i].garbage;
      UnusedIsCount(slots, n - 1, before);
      assert counted == before + if slots[n - 1].epoch && !slots[n - 1].garbage then {n - 1} else {};
    } else {
      assert counted == {};
    }
  }

  /**
    A check comes when the counter is used up. It begins a new epoch if the last one is full; otherwise it puts itself
    off by the least number of insertions, at least one and a sixteenth of the epoch, after which the epoch may be full.
    */
  lemma CheckIsDue<E>(p: Params<E>, s: State<E>, n: nat)
    ensures var t := EpochChecked(p, s); var used := Unused(s.slots, |s.slots|);
      if s.counter != 0 then t == State(s.slots, s.counter - 1)
      else if used >= p.epochSize then t.slots == Turned(s.slots) && t.counter == p.epochSize
      else t.slots == s.slots && (n >= t.counter <==> n >= 1 && n >= p.epochSize / 16 && used + n >= p.epochSize)
  {
    hide Unused, Turned;
  }

  lemma EpochCheckedKeeps<E>(p: Params<E>, s: State<E>)
    requires CacheInv(p, s) && p.epochSize >= 1
    ensures var t := EpochChecked(p, s);
      && Inv(p.h, t.slots, p.none) && (forall x :: Holds(t.slots, x) <==> Holds(s.slots, x))
      && Unused(t.slots, |t.slots|) + t.counter < p.epochSize + Max(1, p.epochSize / 16)
  {
    var t := EpochChecked(p, s);
    SameElems(p.h, s.slots, t.slots, p.none);
    TurnedUnused(s.slots, |s.slots|);
  }

  /** An epoch check forgets no element, and what the past epoch used of those to be kept is still to be kept. */
  lemma TurnKeepsUsed<E>(slots: seq<Slot<E>>, i: nat)
    requires i < |slots|
    ensures !Turned(slots)[i].garbage <==> slots[i].epoch && !slots[i].garbage
    ensures Turned(slots)[i].elem == slots[i].elem && !Turned(slots)[i].epoch
  {}

  lemma InsertKeeps<E>(p: Params<E>, s: State<E>, e: E)
    requires CacheInv(p, s) && p.epochSize >= 1
    ensures CacheInv(p, Insert(p, s, e))
  {
    EpochCheckedKeeps(p, s);
    var t := EpochChecked(p, s);
    var locs := p.h.Locs(e, |t.slots|);
    var i := FindElem(t.slots, locs, e, 0);
    if i < 8 {
      var x := Slot(t.slots[locs[i]].elem, true, false);
      UnusedUpdate(t.slots, locs[i], x, |t.slots|);
      SameElems(p.h, t.slots, t.slots[locs[i] := x], p.none);
    } else {
      FindElemIsFound(p.h, t.slots, e);
      ContainsIsMembership(p.h, t.slots, p.none, e);
      ChaseKeepsInv(p.h, t.slots, p.none, e, true, INVALID, p.depthLimit);
      ChaseUnused(p.h, t.slots, e, true, INVALID, p.depthLimit);
    }
  }

  lemma ContainsKeeps<E>(p: Params<E>, s: State<E>, e: E, erase: bool)
    requires CacheInv(p, s)
    ensures var (t, found) := Contains(p, s, e, erase);
      && CacheInv(p, t) && (forall x :: Holds(t.slots, x) <==> Holds(s.slots, x))
      && (e != p.none ==> (found <==> Holds(s.slots, e)))
  {
    FindElemIsFound(p.h, s.slots, e);
    ContainsIsMembership(p.h, s.slots, p.none, e);
    var locs := p.h.Locs(e, |s.slots|);
    var i := FindElem(s.slots, locs, e, 0);
    if i < 8 && erase {
      var x := s.slots[locs[i]].(garbage := true);
      UnusedUpdate(s.slots, locs[i], x, |s.slots|);
      SameElems(p.h, s.slots, s.slots[locs[i] := x], p.none);
    }
  }

  /** Asking for an element marks its place to be overwritten, if the caller is done with it, and changes nothing else. */
  lemma ContainsMarks<E>(p: Params<E>, s: State<E>, e: E, erase: bool, i: nat)
    requires CacheInv(p, s) && e != p.none && i < |s.slots|
    ensures var t := Contains(p, s, e, erase).0;
      t.counter == s.counter && |t.slots| == |s.slots|
      && t.slots[i] == if erase && s.slots[i].elem == e then s.slots[i].(garbage := true) else s.slots[i]
  {
    hide Hasher.Locs, EpochFits;
    FindElemIsFound(p.h, s.slots, e);
    ContainsIsMembership(p.h, s.slots, p.none, e);
  }

  /** An element that is found after it went in is to be kept, and counts for the epoch. */
  lemma InsertedIsKept<E>(p: Params<E>, s: State<E>, e: E, i: nat)
    requires CacheInv(p, s) && p.epochSize >= 1 && e != p.none && i < |s.slots|
    ensures |Insert(p, s, e).slots| == |s.slots|
    ensures Insert(p, s, e).slots[i].elem == e ==> Insert(p, s, e).slots[i] == Slot(e, true, false)
  {
    hide Hasher.Locs, EpochFits, EpochChecked, Chase, Unused;
    InsertKeeps(p, s, e);
    EpochCheckedKeeps(p, s);
    var t := EpochChecked(p, s);
    if FindElem(t.slots, p.h.Locs(e, |t.slots|), e, 0) == 8 {
      NotThere(p, t.slots, e);
      ChaseTrades(p.h, t.slots, e, true, INVALID, p.depthLimit);
      var c := Chase(p.h, t.slots, e, true, INVALID, p.depthLimit);
      if c.slots[i].elem == e {
        assert c.slots[i] in multiset(c.slots) + multiset{c.lost};
        assert c.slots[i] in multiset(t.slots) + multiset{Slot(e, true, false)};
      }
    }
  }

  lemma NotThere<E>(p: Params<E>, slots: seq<Slot<E>>, e: E)
    requires Inv(p.h, slots, p.none) && e != p.none && FindElem(slots, p.h.Locs(e, |slots|), e, 0) == 8
    ensures forall x: Slot<E> :: x in slots ==> x.elem != e
  {
    hide Hasher.Locs, Inv;
    FindElemIsFound(p.h, slots, e);
    ContainsIsMembership(p.h, slots, p.none, e);
    forall x: Slot<E> | x in slots ensures x.elem != e {
      var i :| 0 <= i < |slots| && slots[i] == x;
    }
  }

  /** The places at which an insertion swaps if the element is not there: fixed by the table before the call. */
  function InsertVisits<E>(p: Params<E>, s: State<E>, e: E): (v: seq<nat>)
    requires |s.slots| > 0
    ensures |v| <= p.depthLimit
  {
    Visits(p.h, EpochChecked(p, s).slots, e, INVALID, p.depthLimit)
  }

  /** An insertion that pushes its own element out: the chain goes to its limit with that element last in hand. */
  ghost predicate PushesItselfOut<E>(p: Params<E>, s: State<E>, e: E)
    requires |s.slots| > 0
  {
    !Found(p.h, s.slots, e) && |InsertVisits(p, s, e)| == p.depthLimit && EndsInHand(InsertVisits(p, s, e))
  }

  /** A place that the next insertion may overwrite. */
  ghost predicate Overwritable<E>(p: Params<E>, s: State<E>, e: E)
    requires |s.slots| > 0
  {
    exists i :: 0 <= i < |s.slots| && EpochChecked(p, s).slots[i].elem == e && EpochChecked(p, s).slots[i].garbage
  }

  /**
    One insertion, by what `contains` answers afterwards: at most one element is gone. It lay at a place that
    may be overwritten, or the chain reached its depth limit; when it is the new one is known before the call.
    */
  lemma InsertMembership<E>(p: Params<E>, s: State<E>, e: E) returns (lost: E)
    requires CacheInv(p, s) && p.epochSize >= 1 && e != p.none
    ensures CacheInv(p, Insert(p, s, e))
    ensures Found(p.h, s.slots, e) ==> lost == p.none
    ensures forall x :: x != p.none ==>
      (Found(p.h, Insert(p, s, e).slots, x) <==> x != lost && (x == e || Found(p.h, s.slots, x)))
    ensures lost == e <==> PushesItselfOut(p, s, e)
    ensures lost == p.none || Overwritable(p, s, lost) || |InsertVisits(p, s, e)| == p.depthLimit
  {
    hide Hasher.Locs, Chase, Inv, EpochFits, EpochChecked, Found, EndsInHand, FindElem;
    InsertKeeps(p, s, e);
    var t := EpochChecked(p, s);
    CheckedMembership(p, s);
    FindElemIsFound(p.h, t.slots, e);
    if FindElem(t.slots, p.h.Locs(e, |t.slots|), e, 0) < 8 {
      lost := p.none;
      HitMembership(p, s, e);
    } else {
      var c := Chase(p.h, t.slots, e, true, INVALID, p.depthLimit);
      lost := c.lost.elem;
      forall x | x != p.none ensures Found(p.h, c.slots, x) <==> x != lost && (x == e || Found(p.h, t.slots, x)) {
        InsertedMembership(p.h, t.slots, p.none, e, INVALID, p.depthLimit, x);
      }
      LostByChase(p, t.slots, e);
    }
  }

  lemma CheckedMembership<E>(p: Params<E>, s: State<E>)
    requires CacheInv(p, s) && p.epochSize >= 1
    ensures var t := EpochChecked(p, s);
      |t.slots| > 0 && Inv(p.h, t.slots, p.none) && forall x :: x != p.none ==> (Found(p.h, t.slots, x) <==> Found(p.h, s.slots, x))
  {
    hide EpochChecked, EpochFits, Found, Holds, AtHome, Once;
    EpochCheckedKeeps(p, s);
    var t := EpochChecked(p, s);
    forall x | x != p.none ensures Found(p.h, t.slots, x) <==> Found(p.h, s.slots, x) {
      ContainsIsMembership(p.h, t.slots, p.none, x);
      ContainsIsMembership(p.h, s.slots, p.none, x);
    }
  }

  lemma HitMembership<E>(p: Params<E>, s: State<E>, e: E)
    requires CacheInv(p, s) && p.epochSize >= 1 && FindElem(EpochChecked(p, s).slots, p.h.Locs(e, |s.slots|), e, 0) < 8
    ensures forall x :: x != p.none ==> (Found(p.h, Insert(p, s, e).slots, x) <==> Found(p.h, s.slots, x))
  {
    hide EpochChecked, EpochFits, Found, Holds, AtHome, Once, Chase;
    CheckedMembership(p, s);
    var t, r := EpochChecked(p, s), Insert(p, s, e);
    SameElems(p.h, t.slots, r.slots, p.none);
    forall x | x != p.none ensures Found(p.h, r.slots, x) <==> Found(p.h, t.slots, x) {
      ContainsIsMembership(p.h, t.slots, p.none, x);
      ContainsIsMembership(p.h, r.slots, p.none, x);
    }
  }

  lemma LostByChase<E>(p: Params<E>, slots: seq<Slot<E>>, e: E)
    requires Inv(p.h, slots, p.none) && e != p.none && !Found(p.h, slots, e)
    ensures var c := Chase(p.h, slots, e, true, INVALID, p.depthLimit); var v := Visits(p.h, slots, e, INVALID, p.depthLimit);
      && (c.lost.elem == e <==> |v| == p.depthLimit && EndsInHand(v))
      && (|v| == p.depthLimit || exists i :: 0 <= i < |slots| && slots[i].elem == c.lost.elem && slots[i].garbage)
  {
    hide Hasher.Locs, Chase, Visits, Found, EndsInHand;
    var c := Chase(p.h, slots, e, true, INVALID, p.depthLimit);
    ContainsIsMembership(p.h, slots, p.none, e);
    ChaseEnds(p.h, slots, e, true, INVALID, p.depthLimit);
    CarriedIsLost(p.h, slots, true, INVALID, p.depthLimit, e);
    ChaseTrades(p.h, slots, e, true, INVALID, p.depthLimit);
    if c.lost.garbage {
      assert c.lost in multiset(c.slots) + multiset{c.lost};
      assert c.lost in multiset(slots);
      var i :| 0 <= i < |slots| && slots[i] == c.lost;
    }
  }

  /** The exact condition, for every depth limit: a just inserted element is found unless the insertion pushes it out. */
  lemma InsertedIsFound<E>(p: Params<E>, s: State<E>, e: E)
    requires CacheInv(p, s) && p.epochSize >= 1 && e != p.none
    ensures Found(p.h, Insert(p, s, e).slots, e) <==> !PushesItselfOut(p, s, e)
  {
    hide *;
    var lost := InsertMembership(p, s, e);
  }

  lemma {:induction false} PickedUpIsVisited(v: seq<nat>, at: nat)
    requires PickedUp(v, at)
    ensures at in v
    decreases |v|
  {
    if v[0] != at { PickedUpIsVisited(v[1..], at); }
  }

  /** For that the chain has to use up its limit and come back to the place where it began. */
  lemma PushedOutByReturn<E>(p: Params<E>, s: State<E>, e: E)
    requires |s.slots| > 0 && PushesItselfOut(p, s, e) && p.depthLimit > 0
    ensures var v := InsertVisits(p, s, e); |v| == p.depthLimit > 1 && v[0] in v[1..]
  {
    hide Visits, EpochChecked, Found;
    PickedUpIsVisited(InsertVisits(p, s, e)[1..], InsertVisits(p, s, e)[0]);
  }

  /** Where an insertion swaps first, if it has to. */
  function FirstSwap<E>(p: Params<E>, s: State<E>, e: E): (loc: nat)
    requires |s.slots| > 0
    ensures loc < |s.slots|
  {
    NextLoc(p.h.Locs(e, |s.slots|), INVALID)
  }

  /** One of the eight places of an element may be overwritten. */
  ghost predicate HasRoom<E>(h: Hasher<E>, slots: seq<Slot<E>>, e: E)
    requires |slots| > 0
  {
    exists k :: 0 <= k < 8 && slots[h.Locs(e, |slots|)[k]].garbage
  }

  /**
    What a caller can see before the call: an element is found afterwards if it is there already, if it has room, if it
    may only swap once, or if the first occupant that it would displace has room.
    */
  lemma FoundAtOnce<E>(p: Params<E>, s: State<E>, e: E)
    requires CacheInv(p, s) && p.epochSize >= 1 && e != p.none
    requires || Found(p.h, s.slots, e)
             || (p.depthLimit > 0 && HasRoom(p.h, s.slots, e))
             || p.depthLimit == 1
             || (p.depthLimit > 1 && HasRoom(p.h, s.slots, s.slots[FirstSwap(p, s, e)].elem))
    ensures Found(p.h, Insert(p, s, e).slots, e)
  {
    hide Hasher.Locs, Inv, EpochFits, Found, NextLoc, EpochChecked, Visits, HasRoom;
    InsertedIsFound(p, s, e);
    if PushesItselfOut(p, s, e) {
      PushedOutByReturn(p, s, e);
      RoomStays(p, s, e);
      RoomStays(p, s, s.slots[FirstSwap(p, s, e)].elem);
      VisitsEnd(p, EpochChecked(p, s).slots, e);
    }
  }

  /** The epoch check makes more places overwritable, and moves no element. */
  lemma RoomStays<E>(p: Params<E>, s: State<E>, e: E)
    requires |s.slots| > 0
    ensures forall i :: 0 <= i < |s.slots| ==> EpochChecked(p, s).slots[i].elem == s.slots[i].elem
    ensures HasRoom(p.h, s.slots, e) ==> HasRoom(p.h, EpochChecked(p, s).slots, e)
  {
    hide Hasher.Locs, Unused;
  }

  /** No swap with room at home; at most one if the first occupant has room. */
  lemma VisitsEnd<E>(p: Params<E>, slots: seq<Slot<E>>, e: E)
    requires |slots| > 0
    ensures HasRoom(p.h, slots, e) ==> Visits(p.h, slots, e, INVALID, p.depthLimit) == []
    ensures HasRoom(p.h, slots, slots[NextLoc(p.h.Locs(e, |slots|), INVALID)].elem) ==> |Visits(p.h, slots, e, INVALID, p.depthLimit)| <= 1
  {
    hide Hasher.Locs, NextLoc;
    var locs := p.h.Locs(e, |slots|);
    if p.depthLimit > 0 && FirstGarbage(slots, locs, 0) == 8 {
      var first := NextLoc(locs, INVALID);
      var next := slots[first := slots[first].(elem := e)];
      var others := p.h.Locs(slots[first].elem, |slots|);
      SameFirstGarbage(slots, next, others, 0);
    }
  }

  /** Without a single swap allowed, nothing new goes in. */
  lemma NothingGoesIn<E>(p: Params<E>, s: State<E>, e: E)
    requires CacheInv(p, s) && p.epochSize >= 1 && e != p.none && p.depthLimit == 0
    ensures Found(p.h, Insert(p, s, e).slots, e) <==> Found(p.h, s.slots, e)
  {}

  /**
    With two swaps: the new element is lost exactly if neither it nor the occupant it displaces has an
    overwritable place, and that occupant's next place is the one it was displaced from.
    */
  lemma LostWithinTwo<E>(p: Params<E>, s: State<E>, e: E)
    requires CacheInv(p, s) && p.epochSize >= 1 && e != p.none && p.depthLimit == 2 && !Found(p.h, s.slots, e)
    ensures var slots := EpochChecked(p, s).slots; var locs := p.h.Locs(e, |slots|);
      var first := NextLoc(locs, INVALID); var others := p.h.Locs(slots[first].elem, |slots|);
      !Found(p.h, Insert(p, s, e).slots, e) <==>
        && (forall k :: 0 <= k < 8 ==> !slots[locs[k]].garbage)
        && (forall k :: 0 <= k < 8 ==> !slots[others[k]].garbage)
        && NextLoc(others, first) == first
  {
    hide Hasher.Locs, Inv, EpochFits, Found, NextLoc, EpochChecked, Visits;
    InsertedIsFound(p, s, e);
    var slots := EpochChecked(p, s).slots;
    var first := NextLoc(p.h.Locs(e, |slots|), INVALID);
    TwoVisits(p.h, slots, e);
    ghost var v := InsertVisits(p, s, e);
    if |v| == 2 { TwoPlaces(v); }
  }

  lemma TwoPlaces(v: seq<nat>)
    requires |v| == 2
    ensures EndsInHand(v) <==> v[0] == v[1]
  {
    var w := v[1..];
    assert w[0] == v[1] && w[1..] == [];
    assert EndsInHand(w[1..]) && !PickedUp(w[1..], v[0]);
  }

  lemma TwoVisits<E>(h: Hasher<E>, slots: seq<Slot<E>>, e: E)
    requires |slots| > 0
    ensures var v := Visits(h, slots, e, INVALID, 2); var locs := h.Locs(e, |slots|);
      var first := NextLoc(locs, INVALID); var others := h.Locs(slots[first].elem, |slots|);
      && (|v| == 2 <==> (forall k :: 0 <= k < 8 ==> !slots[locs[k]].garbage) && (forall k :: 0 <= k < 8 ==> !slots[others[k]].garbage))
      && (|v| == 2 ==> v == [first, NextLoc(others, first)])
  {
    hide Hasher.Locs, NextLoc;
    var locs := h.Locs(e, |slots|);
    var first := NextLoc(locs, INVALID);
    var next := slots[first := slots[first].(elem := e)];
    SameFirstGarbage(slots, next, h.Locs(slots[first].elem, |slots|), 0);
  }

  // ----- Runs -----

  datatype Op<E> = InsertOp(elem: E) | ContainsOp(elem: E, erase: bool)

  function Fresh<E>(p: Params<E>, size: nat): (s: State<E>)
    ensures |s.slots| == size
  {
    State(seq(size, _ => Slot(p.none, false, true)), p.epochSize)
  }

  function Run<E(==)>(p: Params<E>, size: nat, ops: seq<Op<E>>): (s: State<E>)
    requires size > 0
    ensures |s.slots| > 0
    decreases |ops|
  {
    if ops == [] then Fresh(p, size) else
      var s := Run(p, size, ops[..|ops| - 1]);
      match ops[|ops| - 1] case InsertOp(e) => Insert(p, s, e) case ContainsOp(e, erase) => Contains(p, s, e, erase).0
  }

  lemma {:induction false} FreshUnused<E>(p: Params<E>, size: nat, n: nat)
    requires n <= size
    ensures Unused(Fresh(p, size).slots, n) == 0
  {
    if n > 0 { FreshUnused(p, size, n - 1); }
  }

  /** Every state of the cache, after any run: elements at their places and once, and the epoch bounded. */
  lemma {:induction false} RunsKeepInv<E>(p: Params<E>, size: nat, ops: seq<Op<E>>)
    requires size > 0 && p.epochSize == EpochSize(size)
    ensures CacheInv(p, Run(p, size, ops))
    decreases |ops|
  {
    if ops == [] {
      FreshUnused(p, size, size);
    } else {
      RunsKeepInv(p, size, ops[..|ops| - 1]);
      var s := Run(p, size, ops[..|ops| - 1]);
      match ops[|ops| - 1]
      case InsertOp(e) => InsertKeeps(p, s, e);
      case ContainsOp(e, erase) => ContainsKeeps(p, s, e, erase);
    }
  }

  /** All eight places of every element are place 0. */
  const SAME_PLACE := Hasher((select: nat, e: int) => 0)

  /** What setup(4) makes for that hash: an epoch of one element, and log2(4) swaps. */
  const FOUR := Params(SAME_PLACE, 0, EpochSize(4), 2)

  lemma AllAtZero(e: int)
    ensures forall k :: 0 <= k < 8 ==> SAME_PLACE.Locs(e, 4)[k] == 0
    ensures NextLoc(SAME_PLACE.Locs(e, 4), INVALID) == 0 && NextLoc(SAME_PLACE.Locs(e, 4), 0) == 0
  {
    forall k | 0 <= k < 8 ensures SAME_PLACE.Locs(e, 4)[k] == 0 {
      assert SAME_PLACE.Locs(e, 4)[k] == SAME_PLACE.Loc(k, e, 4);
    }
  }

  /** The first element goes to place 0; only that place stays out of reach when the next epoch begins. */
  lemma OneInserted()
    ensures var s := Run(FOUR, 4, [InsertOp(7)]);
      && s.counter == 0 && !Found(SAME_PLACE, s.slots, 9) && Found(SAME_PLACE, s.slots, 7)
      && s.slots == [Slot(7, true, false), Slot(0, false, true), Slot(0, false, true), Slot(0, false, true)]
  {
    var ops := [InsertOp(7)];
    assert ops[..0] == [];
    AllAtZero(7);
    AllAtZero(9);
    var t := EpochChecked(FOUR, Fresh(FOUR, 4));
    assert FindElem(t.slots, SAME_PLACE.Locs(7, 4), 7, 0) == 8;
    assert FirstGarbage(t.slots, SAME_PLACE.Locs(7, 4), 0) == 0;
    assert Run(FOUR, 4, ops).slots[SAME_PLACE.Locs(7, 4)[0]].elem == 7;
  }

  /** In a table of four places, two insertions are enough: the second element is not found right after it went in. */
  lemma InsertedIsLost()
    ensures !Found(SAME_PLACE, Run(FOUR, 4, [InsertOp(7), InsertOp(9)]).slots, 9)
    ensures Found(SAME_PLACE, Run(FOUR, 4, [InsertOp(7), InsertOp(9)]).slots, 7)
  {
    hide Hasher.Locs, Found, FindElem, FirstGarbage, Fresh, Chase;
    var ops := [InsertOp(7), InsertOp(9)];
    assert ops[..1] == [InsertOp(7)];
    OneInserted();
    RunsKeepInv(FOUR, 4, ops[..1]);
    var s := Run(FOUR, 4, ops[..1]);
    AllAtZero(7);
    AllAtZero(9);
    LostWithinTwo(FOUR, s, 9);
    var lost := InsertMembership(FOUR, s, 9);
    assert lost == 9;
  }
}

/** bit_packed_atomic_flags: one bit a flag. */
module BitFlags {

  function Bit(k: nat): bv8
    requires k < 8
  {
    1 << k
  }

  predicate IsFlagged(m: bv8, k: nat)
    requires k < 8
  {
    Bit(k) & m != 0
  }

  /** What fetch_or and fetch_and leave of a byte. */
  function WithBit(m: bv8, k: nat): bv8
    requires k < 8
  {
    m | Bit(k)
  }

  function WithoutBit(m: bv8, k: nat): bv8
    requires k < 8
  {
    m & !Bit(k)
  }

  predicate IsOneBit(x: bv8) {
    x == 1 || x == 2 || x == 4 || x == 8 || x == 16 || x == 32 || x == 64 || x == 128
  }

  /** Which of the eight bits it is. */
  function BitIndex(x: bv8): nat {
    if x == 1 then 0 else if x == 2 then 1 else if x == 4 then 2 else if x == 8 then 3
    else if x == 16 then 4 else if x == 32 then 5 else if x == 64 then 6 else 7
  }

  lemma BitValue(k: nat)
    requires k < 8
    ensures IsOneBit(Bit(k)) && BitIndex(Bit(k)) == k
  {}

  lemma SetAndUnset(m: bv8, j: nat, k: nat)
    requires j < 8 && k < 8
    ensures IsFlagged(WithBit(m, k), j) == (j == k || IsFlagged(m, j))
    ensures IsFlagged(WithoutBit(m, k), j) == (j != k && IsFlagged(m, j))
  {
    hide Bit, IsOneBit, BitIndex;
    BitValue(j);
    BitValue(k);
    OneBit(m, Bit(j), Bit(k));
  }

  lemma OneBit(m: bv8, x: bv8, y: bv8)
    requires IsOneBit(x) && IsOneBit(y)
    ensures (x & (m | y) != 0) == (x == y || x & m != 0)
    ensures (x & (m & !y) != 0) == (x != y && x & m != 0)
  {}

  lemma AllOnes(k: nat)
    requires k < 8
    ensures IsFlagged(0xFF, k)
  {
    BitValue(k);
  }

  lemma SameBit(k: nat, s: nat)
    ensures k / 8 == s / 8 && k % 8 == s % 8 <==> k == s
  {}

  class BitPackedAtomicFlags {
    const mem: array<bv8>

    function IsSet(s: nat): bool
      requires s / 8 < mem.Length
      reads this, mem
    {
      IsFlagged(mem[s / 8], s % 8)
    }

    constructor (size: nat)
      ensures mem.Length == (size + 7) / 8 && fresh(mem)
      ensures forall s :: 0 <= s < size ==> IsSet(s)
    {
      mem := new bv8[(size + 7) / 8](_ => 0xFF);
      new;
      forall s | 0 <= s < size ensures IsSet(s) { AllOnes(s % 8); }
    }

    method BitSet(s: nat)
      requires s / 8 < mem.Length
      modifies mem
      ensures forall k: nat {:trigger IsSet(k)} :: k / 8 < mem.Length ==> IsSet(k) == (k == s || old(IsSet(k)))
    {
      hide IsFlagged, Bit, WithBit, WithoutBit;
      ghost var m := mem[s / 8];
      mem[s / 8] := WithBit(mem[s / 8], s % 8);
      forall k: nat | k / 8 < mem.Length ensures IsSet(k) == (k == s || old(IsSet(k))) {
        SameBit(k, s);
        SetAndUnset(m, k % 8, s % 8);
      }
    }

    method BitUnset(s: nat)
      requires s / 8 < mem.Length
      modifies mem
      ensures forall k: nat {:trigger IsSet(k)} :: k / 8 < mem.Length ==> IsSet(k) == (k != s && old(IsSet(k)))
    {
      hide IsFlagged, Bit, WithBit, WithoutBit;
      ghost var m := mem[s / 8];
      mem[s / 8] := WithoutBit(mem[s / 8], s % 8);
      forall k: nat | k / 8 < mem.Length ensures IsSet(k) == (k != s && old(IsSet(k))) {
        SameBit(k, s);
        SetAndUnset(m, k % 8, s % 8);
      }
    }

    method BitIsSet(s: nat) returns (r: bool)
      requires s / 8 < mem.Length
      ensures r == IsSet(s)
    {
      r := Bit(s % 8) & mem[s / 8] != 0;
    }
  }

}

/** CuckooCache::cache. */
module CuckooCache {
  import opened Arith
  import opened BitFlags
  import opened CuckooState

  /** The cache after `setup`. */
  class Cache<E(==)> {
    const hasher: Hasher<E>
    const none: E
    const size: nat
    const table: array<E>
    const collectionFlags: BitPackedAtomicFlags
    const epochFlags: array<bool>
    var epochHeuristicCounter: nat
    const epochSize: nat
    const depthLimit: nat

    ghost predicate Shaped() {
      && 2 <= size && table.Length == size && epochFlags.Length == size
      && collectionFlags.mem.Length == (size + 7) / 8
      && (table as object) !in {epochFlags as object, collectionFlags.mem as object}
    }

    ghost function P(): Params<E> {
      Params(hasher, none, epochSize, depthLimit)
    }

    ghost function SlotAt(i: nat): Slot<E>
      requires Shaped() && i < size
      reads table, epochFlags, collectionFlags, collectionFlags.mem
    {
      Slot(table[i], epochFlags[i], collectionFlags.IsSet(i))
    }

    ghost function Abs(): (s: State<E>)
      requires Shaped()
      reads this, table, epochFlags, collectionFlags, collectionFlags.mem
      ensures |s.slots| == size
    {
      State(seq(size, i requires 0 <= i < size reads table, epochFlags, collectionFlags, collectionFlags.mem => SlotAt(i)),
            epochHeuristicCounter)
    }

    lemma At(i: nat)
      requires Shaped() && i < size
      ensures Abs().slots[i] == SlotAt(i)
    {}

    /** setup on a new cache; the depth limit, a rounded logarithm, is given. */
    constructor (h: Hasher<E>, none: E, newSize: nat, depthLimit: nat)
      ensures Shaped() && P() == Params(h, none, EpochSize(Max(2, newSize)), depthLimit)
      ensures Abs() == Fresh(P(), Max(2, newSize)) && fresh(table) && fresh(epochFlags) && fresh(collectionFlags.mem)
    {
      var n := Max(2, newSize);
      hasher, this.none, this.depthLimit := h, none, depthLimit;
      size := n;
      table := new E[n](_ => none);
      collectionFlags := new BitPackedAtomicFlags(n);
      epochFlags := new bool[n](_ => false);
      epochSize := Max(1, 45 * n % TWO32 / 100);
      epochHeuristicCounter := Max(1, 45 * n % TWO32 / 100);
    }

    method AllowErase(n: nat)
      requires Shaped() && n < size
      modifies collectionFlags.mem
      ensures Abs() == old(Abs()).(slots := old(Abs()).slots[n := old(SlotAt(n)).(garbage := true)])
    {
      ghost var was := Abs();
      collectionFlags.BitSet(n);
      assert Abs().slots == was.slots[n := was.slots[n].(garbage := true)];
    }

    /** The assignments that put an element into a slot and mark it to be kept. */
    method Put(loc: nat, e: E, epoch: bool)
      requires Shaped() && loc < size
      modifies table, epochFlags, collectionFlags.mem
      ensures Abs() == old(Abs()).(slots := old(Abs()).slots[loc := Slot(e, epoch, false)])
    {
      ghost var was := Abs();
      table[loc] := e;
      collectionFlags.BitUnset(loc);
      epochFlags[loc] := epoch;
      assert Abs().slots == was.slots[loc := Slot(e, epoch, false)];
    }

    method EpochCheck()
      requires Shaped()
      modifies this, epochFlags, collectionFlags.mem
      ensures Abs() == EpochChecked(P(), old(Abs()))
    {
      if epochHeuristicCounter != 0 {
        epochHeuristicCounter := epochHeuristicCounter - 1;
        return;
      }
      ghost var s := Abs();
      var epochUnusedCount := 0;
      for i := 0 to size
        invariant epochUnusedCount == Unused(s.slots, i) && Abs() == s
      {
        var isSet := collectionFlags.BitIsSet(i);
        At(i);
        epochUnusedCount := epochUnusedCount + if epochFlags[i] && !isSet then 1 else 0;
      }
      if epochUnusedCount >= epochSize {
        Turn();
        epochHeuristicCounter := epochSize;
      } else {
        epochHeuristicCounter := Max(1, Max(epochSize / 16, epochSize - epochUnusedCount));
      }
    }

    method Turn()
      requires Shaped()
      modifies epochFlags, collectionFlags.mem
      ensures Abs() == old(Abs()).(slots := Turned(old(Abs()).slots))
    {
      ghost var s := Abs();
      for i := 0 to size
        invariant forall k :: 0 <= k < i ==> SlotAt(k) == Turned(s.slots)[k]
        invariant forall k :: i <= k < size ==> SlotAt(k) == s.slots[k]
      {
        assert SlotAt(i) == s.slots[i];
        if epochFlags[i] {
          epochFlags[i] := false;
        } else {
          collectionFlags.BitSet(i);
        }
      }
      assert Abs().slots == Turned(s.slots);
    }

    /** The index of the first of the places that holds the element; 8 if none does. */
    method FindLoc(locs: seq<nat>, e: E) returns (i: nat)
      requires Shaped() && |locs| == 8 && forall k :: 0 <= k < 8 ==> locs[k] < size
      ensures i == FindElem(Abs().slots, locs, e, 0)
    {
      i := 0;
      while i < 8
        invariant i <= 8 && FindElem(Abs().slots, locs, e, 0) == FindElem(Abs().slots, locs, e, i)
      {
        At(locs[i]);
        if table[locs[i]] == e {
          return;
        }
        i := i + 1;
      }
    }

    method GarbageLoc(locs: seq<nat>) returns (i: nat)
      requires Shaped() && |locs| == 8 && forall k :: 0 <= k < 8 ==> locs[k] < size
      ensures i == FirstGarbage(Abs().slots, locs, 0)
    {
      hide FirstGarbage;
      i := 0;
      while i < 8
        invariant i <= 8 && forall k :: 0 <= k < i ==> !Abs().slots[locs[k]].garbage
      {
        At(locs[i]);
        var isSet := collectionFlags.BitIsSet(locs[i]);
        if isSet {
          FirstGarbageIs(Abs().slots, locs, i);
          return;
        }
        i := i + 1;
      }
      FirstGarbageIs(Abs().slots, locs, 8);
    }

    /** The element and its epoch flag change places with those of a slot. */
    method Swap(loc: nat, e: E, epoch: bool) returns (other: E, otherEpoch: bool)
      requires Shaped() && loc < size
      modifies table, epochFlags
      ensures Abs() == old(Abs()).(slots := old(Abs()).slots[loc := Slot(e, epoch, old(Abs()).slots[loc].garbage)])
      ensures other == old(Abs()).slots[loc].elem && otherEpoch == old(Abs()).slots[loc].epoch
    {
      At(loc);
      ghost var was := Abs();
      other, otherEpoch := table[loc], epochFlags[loc];
      table[loc] := e;
      epochFlags[loc] := epoch;
      assert Abs().slots == was.slots[loc := Slot(e, epoch, was.slots[loc].garbage)];
    }

    method Insert(e: E)
      requires Shaped()
      modifies this, table, epochFlags, collectionFlags.mem
      ensures Abs() == CuckooState.Insert(P(), old(Abs()), e)
    {
      hide Abs, Hasher.Locs, FindElem, Chase, EpochChecked;
      EpochCheck();
      var locs := hasher.Locs(e, size);
      var i := FindLoc(locs, e);
      if i < 8 {
        At(locs[i]);
        Put(locs[i], table[locs[i]], true);
        return;
      }
      Displace(e, locs);
    }

    /** The second half of `insert`. */
    method Displace(e: E, locs: seq<nat>)
      requires Shaped() && locs == hasher.Locs(e, size)
      modifies table, epochFlags, collectionFlags.mem
      ensures Abs() == old(Abs()).(slots := Chase(hasher, old(Abs()).slots, e, true, INVALID, depthLimit).slots)
    {
      hide Abs, Hasher.Locs, FirstGarbage, NextLoc;
      ghost var s := Abs();
      ghost var goal := Chase(hasher, s.slots, e, true, INVALID, depthLimit);
      var carried, lastEpoch, locs := e, true, locs;
      var lastLoc: nat := INVALID;
      var depth := 0;
      while depth < depthLimit
        invariant depth <= depthLimit && locs == hasher.Locs(carried, size) && Abs().counter == s.counter
        invariant Chase(hasher, Abs().slots, carried, lastEpoch, lastLoc, depthLimit - depth) == goal
      {
        var i := GarbageLoc(locs);
        if i < 8 {
          Put(locs[i], carried, lastEpoch);
          return;
        }
        lastLoc := NextLoc(locs, lastLoc);
        carried, lastEpoch := Swap(lastLoc, carried, lastEpoch);
        locs := hasher.Locs(carried, size);
        depth := depth + 1;
      }
    }

    method Contains(e: E, erase: bool) returns (found: bool)
      requires Shaped()
      modifies collectionFlags.mem
      ensures (Abs(), found) == CuckooState.Contains(P(), old(Abs()), e, erase)
    {
      var locs := hasher.Locs(e, size);
      var i := FindLoc(locs, e);
      if i < 8 && erase {
        AllowErase(locs[i]);
      }
      return i < 8;
    }
  }
}
