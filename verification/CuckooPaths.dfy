/**
  The path of an insertion through the cuckoo cache: which place each displaced element goes to, and what the table
  holds at the end. A path is told by the places visited and by swapping along them, apart from the loop that finds it.
  */
module CuckooPaths {
  import opened CuckooState

  ghost predicate FirstAt(locs: seq<nat>, last: nat, k: nat) {
    k < |locs| && locs[k] == last && forall j :: 0 <= j < k ==> locs[j] != last
  }

  /** The place that follows `last` in a list of eight, which is closed to a ring; the second one if `last` is not in it. */
  ghost predicate Follows(locs: seq<nat>, last: nat, loc: nat)
    requires |locs| == 8
  {
    if last in locs then (FirstAt(locs, last, 7) && loc == locs[0]) || exists k :: FirstAt(locs, last, k) && k < 7 && loc == locs[k + 1]
    else loc == locs[1]
  }

  lemma NextFollows(locs: seq<nat>, last: nat)
    requires |locs| == 8
    ensures Follows(locs, last, NextLoc(locs, last))
  {
    if last in locs { assert FirstAt(locs, last, IndexIn(locs, last, 0)); }
  }

  lemma FollowsOnce(locs: seq<nat>, last: nat, a: nat, b: nat)
    requires |locs| == 8 && Follows(locs, last, a) && Follows(locs, last, b)
    ensures a == b
  {}

  ghost function Elems<E>(slots: seq<Slot<E>>): (t: seq<E>)
    ensures |t| == |slots| && forall i :: 0 <= i < |t| ==> t[i] == slots[i].elem
  {
    seq(|slots|, i requires 0 <= i < |slots| => slots[i].elem)
  }

  /** The elements of the table and the one in hand after swapping along a path, with e in hand at first. */
  ghost function Along<E>(table: seq<E>, e: E, v: seq<nat>): (r: (seq<E>, E))
    requires forall i :: 0 <= i < |v| ==> v[i] < |table|
    ensures |r.0| == |table|
    decreases |v|
  {
    if v == [] then (table, e) else Along(table[v[0] := e], table[v[0]], v[1..])
  }

  /** The element in hand when the path has been followed for i visits. */
  ghost function InHand<E>(table: seq<E>, e: E, v: seq<nat>, i: nat): E
    requires i <= |v| && forall i :: 0 <= i < |v| ==> v[i] < |table|
  {
    Along(table, e, v[..i]).1
  }

  /** The place before visit i. */
  ghost function Before(v: seq<nat>, lastLoc: nat, i: nat): nat
    requires i < |v|
  {
    if i == 0 then lastLoc else v[i - 1]
  }

  /** Visit i is made by an element without an overwritable place, and goes to the place after its last one. */
  ghost predicate StepOf<E>(h: Hasher<E>, slots: seq<Slot<E>>, e: E, lastLoc: nat, v: seq<nat>, i: nat)
    requires |slots| > 0 && i < |v| && forall i :: 0 <= i < |v| ==> v[i] < |slots|
  {
    var x := InHand(Elems(slots), e, v, i);
    !HasRoom(h, slots, x) && Follows(h.Locs(x, |slots|), Before(v, lastLoc, i), v[i])
  }

  ghost predicate IsPath<E>(h: Hasher<E>, slots: seq<Slot<E>>, e: E, lastLoc: nat, depth: nat, v: seq<nat>)
    requires |slots| > 0
  {
    && |v| <= depth && (forall i :: 0 <= i < |v| ==> v[i] < |slots|)
    && (forall i :: 0 <= i < |v| ==> StepOf(h, slots, e, lastLoc, v, i))
    && (|v| < depth ==> HasRoom(h, slots, InHand(Elems(slots), e, v, |v|)))
  }

  /** Swapping moves no garbage flag. */
  lemma SwapKeepsRoom<E>(h: Hasher<E>, slots: seq<Slot<E>>, loc: nat, s: Slot<E>, x: E)
    requires loc < |slots| && s.garbage == slots[loc].garbage
    ensures HasRoom(h, slots[loc := s], x) == HasRoom(h, slots, x)
    ensures Elems(slots[loc := s]) == Elems(slots)[loc := s.elem]
  {
    hide Hasher.Locs;
  }

  lemma RoomIsGarbage<E>(h: Hasher<E>, slots: seq<Slot<E>>, x: E)
    requires |slots| > 0
    ensures HasRoom(h, slots, x) <==> FirstGarbage(slots, h.Locs(x, |slots|), 0) < 8
  {
    hide Hasher.Locs;
  }

  lemma NoVisit<E>(h: Hasher<E>, slots: seq<Slot<E>>, e: E, lastLoc: nat, depth: nat)
    requires |slots| > 0 && (depth == 0 || HasRoom(h, slots, e))
    ensures IsPath(h, slots, e, lastLoc, depth, [])
  {}

  /** A visit in front of a path from the table it leaves. */
  lemma OneVisitMore<E>(h: Hasher<E>, slots: seq<Slot<E>>, e: E, lastLoc: nat, depth: nat, loc: nat, s: Slot<E>, w: seq<nat>)
    requires loc < |slots| && depth > 0 && !HasRoom(h, slots, e) && Follows(h.Locs(e, |slots|), lastLoc, loc)
    requires s.elem == e && s.garbage == slots[loc].garbage
    requires IsPath(h, slots[loc := s], slots[loc].elem, loc, depth - 1, w)
    ensures IsPath(h, slots, e, lastLoc, depth, [loc] + w)
  {
    hide Hasher.Locs, Follows, HasRoom, Elems;
    var next, v, t := slots[loc := s], [loc] + w, Elems(slots);
    SwapKeepsRoom(h, slots, loc, s, e);
    forall i | 0 <= i < |w| + 1 ensures InHand(t, e, v, i) == if i == 0 then e else InHand(Elems(next), t[loc], w, i - 1) {
      if i > 0 { assert v[..i][1..] == w[..i - 1]; }
    }
    forall i | 0 <= i < |v| ensures StepOf(h, slots, e, lastLoc, v, i) {
      if i > 0 {
        assert StepOf(h, next, slots[loc].elem, loc, w, i - 1);
        SwapKeepsRoom(h, slots, loc, s, InHand(t, e, v, i));
      }
    }
    assert v[..|v|][1..] == w[..|w|];
    SwapKeepsRoom(h, slots, loc, s, InHand(t, e, v, |v|));
  }

  /** The visits of a chain are a path. */
  lemma {:induction false} VisitsArePath<E>(h: Hasher<E>, slots: seq<Slot<E>>, e: E, lastLoc: nat, depth: nat)
    requires |slots| > 0
    ensures IsPath(h, slots, e, lastLoc, depth, Visits(h, slots, e, lastLoc, depth))
    decreases depth
  {
    hide Hasher.Locs, HasRoom, IsPath, Follows, NextLoc, FirstGarbage;
    RoomIsGarbage(h, slots, e);
    if depth == 0 || HasRoom(h, slots, e) {
      NoVisit(h, slots, e, lastLoc, depth);
    } else {
      var loc := NextLoc(h.Locs(e, |slots|), lastLoc);
      NextFollows(h.Locs(e, |slots|), lastLoc);
      var next := slots[loc := slots[loc].(elem := e)];
      VisitsArePath(h, next, slots[loc].elem, loc, depth - 1);
      OneVisitMore(h, slots, e, lastLoc, depth, loc, slots[loc].(elem := e), Visits(h, next, slots[loc].elem, loc, depth - 1));
    }
  }

  lemma FirstVisit<E>(h: Hasher<E>, slots: seq<Slot<E>>, e: E, lastLoc: nat, depth: nat, v: seq<nat>)
    requires |slots| > 0 && v != [] && IsPath(h, slots, e, lastLoc, depth, v)
    ensures depth > 0 && v[0] < |slots| && !HasRoom(h, slots, e) && Follows(h.Locs(e, |slots|), lastLoc, v[0])
  {
    hide Hasher.Locs, Follows, HasRoom;
    assert StepOf(h, slots, e, lastLoc, v, 0);
  }

  lemma OneVisitLess<E>(h: Hasher<E>, slots: seq<Slot<E>>, e: E, lastLoc: nat, depth: nat, v: seq<nat>)
    requires |slots| > 0 && v != [] && IsPath(h, slots, e, lastLoc, depth, v) && v[0] < |slots| && depth > 0
    ensures IsPath(h, slots[v[0] := slots[v[0]].(elem := e)], slots[v[0]].elem, v[0], depth - 1, v[1..])
  {
    hide Hasher.Locs, Follows, HasRoom;
    var loc, w, t, x := v[0], v[1..], Elems(slots), slots[v[0]].(elem := e);
    var next := slots[loc := x];
    SwapKeepsRoom(h, slots, loc, x, e);
    forall i | 0 <= i <= |w| ensures InHand(Elems(next), t[loc], w, i) == InHand(t, e, v, i + 1) {
      assert v[..i + 1][1..] == w[..i];
    }
    forall i | 0 <= i < |w| ensures StepOf(h, next, slots[loc].elem, loc, w, i) {
      assert StepOf(h, slots, e, lastLoc, v, i + 1);
      SwapKeepsRoom(h, slots, loc, x, InHand(t, e, v, i + 1));
    }
    SwapKeepsRoom(h, slots, loc, x, InHand(t, e, v, |v|));
  }

  /** There is no other path. */
  lemma {:induction false} PathIsVisits<E>(h: Hasher<E>, slots: seq<Slot<E>>, e: E, lastLoc: nat, depth: nat, v: seq<nat>)
    requires |slots| > 0 && IsPath(h, slots, e, lastLoc, depth, v)
    ensures v == Visits(h, slots, e, lastLoc, depth)
    decreases depth
  {
    hide Hasher.Locs, HasRoom, Follows, NextLoc, FirstGarbage;
    RoomIsGarbage(h, slots, e);
    if v != [] {
      FirstVisit(h, slots, e, lastLoc, depth, v);
      NextFollows(h.Locs(e, |slots|), lastLoc);
      FollowsOnce(h.Locs(e, |slots|), lastLoc, v[0], NextLoc(h.Locs(e, |slots|), lastLoc));
      OneVisitLess(h, slots, e, lastLoc, depth, v);
      PathIsVisits(h, slots[v[0] := slots[v[0]].(elem := e)], slots[v[0]].elem, v[0], depth - 1, v[1..]);
    } else {
      assert v[..0] == [];
    }
  }

  /** The places an insertion visits are the one path from the second of the element's places. */
  lemma InsertFollowsPath<E>(p: Params<E>, s: State<E>, e: E, v: seq<nat>)
    requires |s.slots| > 0
    ensures v == InsertVisits(p, s, e) <==> IsPath(p.h, EpochChecked(p, s).slots, e, INVALID, p.depthLimit, v)
  {
    hide Visits, IsPath, EpochChecked;
    var slots := EpochChecked(p, s).slots;
    VisitsArePath(p.h, slots, e, INVALID, p.depthLimit);
    if IsPath(p.h, slots, e, INVALID, p.depthLimit, v) { PathIsVisits(p.h, slots, e, INVALID, p.depthLimit, v); }
  }

  /** No table is so large that the start value is one of its places. */
  lemma StartsAtSecond<E>(h: Hasher<E>, slots: seq<Slot<E>>, e: E, depth: nat, v: seq<nat>)
    requires 0 < |slots| <= INVALID && v != [] && IsPath(h, slots, e, INVALID, depth, v)
    ensures v[0] == h.Locs(e, |slots|)[1]
  {
    hide Hasher.Loc, HasRoom;
    FirstVisit(h, slots, e, INVALID, depth, v);
  }

  // ----- What the table holds in the end -----

  /** After its visits the chain puts the element in hand into its first overwritable place, or is left with it. */
  ghost predicate EndsWith<E>(h: Hasher<E>, slots: seq<Slot<E>>, e: E, depth: nat, v: seq<nat>, c: Chain<E>)
    requires |slots| > 0 && forall i :: 0 <= i < |v| ==> v[i] < |slots|
  {
    var (t, x) := Along(Elems(slots), e, v);
    if |v| == depth then c.lost.elem == x && Elems(c.slots) == t
    else exists k :: RestsAt(slots, h.Locs(x, |slots|), t, x, k, c)
  }

  ghost predicate RestsAt<E>(slots: seq<Slot<E>>, locs: seq<nat>, t: seq<E>, x: E, k: nat, c: Chain<E>)
    requires |locs| == 8 && |t| == |slots| && forall j :: 0 <= j < 8 ==> locs[j] < |slots|
  {
    && k < 8 && slots[locs[k]].garbage && (forall j :: 0 <= j < k ==> !slots[locs[j]].garbage)
    && c.lost.elem == t[locs[k]] && Elems(c.slots) == t[locs[k] := x]
  }

  lemma EndsAtOnce<E>(h: Hasher<E>, slots: seq<Slot<E>>, e: E, epoch: bool, lastLoc: nat, depth: nat)
    requires |slots| > 0 && (depth == 0 || FirstGarbage(slots, h.Locs(e, |slots|), 0) < 8)
    ensures EndsWith(h, slots, e, depth, [], Chase(h, slots, e, epoch, lastLoc, depth))
  {
    hide Hasher.Locs;
    var locs, c := h.Locs(e, |slots|), Chase(h, slots, e, epoch, lastLoc, depth);
    assert Along(Elems(slots), e, []) == (Elems(slots), e);
    if depth > 0 { assert RestsAt(slots, locs, Elems(slots), e, FirstGarbage(slots, locs, 0), c); }
  }

  lemma EndsLater<E>(h: Hasher<E>, slots: seq<Slot<E>>, e: E, depth: nat, loc: nat, s: Slot<E>, w: seq<nat>, c: Chain<E>)
    requires loc < |slots| && depth > 0 && s.elem == e && s.garbage == slots[loc].garbage && forall i :: 0 <= i < |w| ==> w[i] < |slots|
    requires EndsWith(h, slots[loc := s], slots[loc].elem, depth - 1, w, c)
    ensures EndsWith(h, slots, e, depth, [loc] + w, c)
  {
    hide Hasher.Locs;
    SwapKeepsRoom(h, slots, loc, s, e);
    assert ([loc] + w)[1..] == w;
    var next, locs := slots[loc := s], h.Locs(Along(Elems(slots), e, [loc] + w).1, |slots|);
    var (t, x) := Along(Elems(slots), e, [loc] + w);
    if |w| != depth - 1 {
      var k :| RestsAt(next, locs, t, x, k, c);
      assert RestsAt(slots, locs, t, x, k, c);
    }
  }

  /** Every chain follows its path, and what is in the table then is what swapping along the path leaves there. */
  lemma {:induction false} ChaseFollowsPath<E>(h: Hasher<E>, slots: seq<Slot<E>>, e: E, epoch: bool, lastLoc: nat, depth: nat)
    requires |slots| > 0
    ensures IsPath(h, slots, e, lastLoc, depth, Visits(h, slots, e, lastLoc, depth))
    ensures EndsWith(h, slots, e, depth, Visits(h, slots, e, lastLoc, depth), Chase(h, slots, e, epoch, lastLoc, depth))
    decreases depth
  {
    hide Hasher.Locs, HasRoom, Follows, StepOf, NextLoc, FirstGarbage, Visits, Chase, EndsWith;
    VisitsArePath(h, slots, e, lastLoc, depth);
    if depth > 0 && FirstGarbage(slots, h.Locs(e, |slots|), 0) == 8 {
      FirstStep(h, slots, e, epoch, lastLoc, depth);
      var loc := NextLoc(h.Locs(e, |slots|), lastLoc);
      var s := Slot(e, epoch, slots[loc].garbage);
      ChaseFollowsPath(h, slots[loc := s], slots[loc].elem, slots[loc].epoch, loc, depth - 1);
      EndsLater(h, slots, e, depth, loc, s, Visits(h, slots[loc := s], slots[loc].elem, loc, depth - 1), Chase(h, slots, e, epoch, lastLoc, depth));
    } else {
      NoStep(h, slots, e, epoch, lastLoc, depth);
      EndsAtOnce(h, slots, e, epoch, lastLoc, depth);
    }
  }

  // ----- Elements whose places are distinct -----

  ghost predicate DistinctPlaces<E>(h: Hasher<E>, size: nat, e: E)
    requires size > 0
  {
    forall j, k :: 0 <= j < k < 8 ==> h.Locs(e, size)[j] != h.Locs(e, size)[k]
  }

  /** An element with distinct places never goes back at once to the place it was lifted from. */
  lemma NeverStraightBack<E>(h: Hasher<E>, slots: seq<Slot<E>>, e: E, lastLoc: nat, depth: nat, v: seq<nat>, i: nat)
    requires |slots| > 0 && IsPath(h, slots, e, lastLoc, depth, v) && i + 1 < |v|
    requires DistinctPlaces(h, |slots|, InHand(Elems(slots), e, v, i + 1))
    ensures v[i + 1] != v[i]
  {
    hide Hasher.Locs, HasRoom;
    assert StepOf(h, slots, e, lastLoc, v, i + 1);
  }

  /** So with one or two swaps a new element is found if the occupant it may displace has distinct places. */
  lemma FoundWithinTwo<E>(p: Params<E>, s: State<E>, e: E)
    requires CacheInv(p, s) && p.epochSize >= 1 && e != p.none && 1 <= p.depthLimit <= 2
    requires DistinctPlaces(p.h, |s.slots|, s.slots[FirstSwap(p, s, e)].elem)
    ensures Found(p.h, Insert(p, s, e).slots, e)
  {
    hide Hasher.Locs, EpochFits, EpochChecked, NextLoc, Found, Inv, Insert;
    if Found(p.h, s.slots, e) || p.depthLimit == 1 {
      FoundAtOnce(p, s, e);
    } else {
      var others := p.h.Locs(s.slots[FirstSwap(p, s, e)].elem, |s.slots|);
      LostWithinTwo(p, s, e);
      RoomStays(p, s, e);
      NextFollows(others, FirstSwap(p, s, e));
    }
  }
}
