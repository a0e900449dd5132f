/**
  The layered coin cache. Layers sit on top of each other and on a database; each holds a
  partial map with DIRTY and FRESH flags. `View` is the abstract state of a whole stack,
  the functions below are the transitions of its top layer, and the theorems say that the
  stack behaves like one plain map per layer.
  */
module CoinsView {
  import opened Prelude
  import opened Coins

  /** CCoinsCacheEntry with its two flag bits. */
  datatype Entry = Entry(coins: CCoins, isDirty: bool, isFresh: bool)

  type CoinsMap = map<Hash256, CCoins>
  type CacheMap = map<Hash256, Entry>

  datatype View =
    | Db(coinsDb: CoinsMap)
    | Cache(cacheCoins: CacheMap, base: View)

  // ----- What a view shows -----

  /** The answer of GetCoins, before the caller looks at whether it is pruned. */
  function Lookup(v: View, txid: Hash256): Option<CCoins> {
    match v
    case Db(db) => Find(db, txid)
    case Cache(cc, base) => if txid in cc then Some(cc[txid].coins) else Lookup(base, txid)
  }

  /** The unspent outputs a view shows for a transaction: absent and pruned look alike. */
  function Shows(v: View, txid: Hash256): Option<CCoins> {
    Unpruned(Lookup(v, txid))
  }

  function Unpruned(c: Option<CCoins>): Option<CCoins> {
    if c.Some? && !c.value.IsPruned() then c else None
  }

  /** The unspent transaction outputs a view stands for, as one plain map. */
  type Plain = imap<Hash256, CCoins>

  ghost function Shown(v: View): Plain {
    imap t | Shows(v, t).Some? :: Shows(v, t).value
  }

  function Find<V>(m: map<Hash256, V>, t: Hash256): Option<V> {
    if t in m then Some(m[t]) else None
  }

  function Put<V>(m: map<Hash256, V>, t: Hash256, v: Option<V>): map<Hash256, V> {
    match v
    case None => m - {t}
    case Some(x) => m[t := x]
  }

  // ----- Transitions -----

  /** FetchCoins: pull a missing entry up through every layer. */
  function Fetch(v: View, txid: Hash256): View {
    match v
    case Db(_) => v
    case Cache(cc, base) =>
      if txid in cc then v else
        match Lookup(base, txid)
        case None => Cache(cc, Fetch(base, txid))
        case Some(c) => Cache(cc[txid := Entry(c, false, c.IsPruned())], Fetch(base, txid))
  }

  /** ModifyCoins: the entry that the modifier is handed. */
  function BeginModify(v: View, txid: Hash256): View
    requires v.Cache?
  {
    if txid in v.cacheCoins then
      Cache(v.cacheCoins[txid := v.cacheCoins[txid].(isDirty := true)], v.base)
    else
      var e := match Lookup(v.base, txid)
               case None => Entry(EmptyCoins, true, true)
               case Some(c) => Entry(c, true, c.IsPruned());
      Cache(v.cacheCoins[txid := e], Fetch(v.base, txid))
  }

  /** What the owner of the modifier writes through it. */
  function AssignModified(v: View, txid: Hash256, coins: CCoins): View
    requires v.Cache? && txid in v.cacheCoins
  {
    Cache(v.cacheCoins[txid := v.cacheCoins[txid].(coins := coins)], v.base)
  }

  /** The modifier's destructor. */
  function EndModify(v: View, txid: Hash256): View
    requires v.Cache? && txid in v.cacheCoins
  {
    var e := v.cacheCoins[txid].(coins := v.cacheCoins[txid].coins.CleanedUp());
    if e.isFresh && e.coins.IsPruned() then Cache(v.cacheCoins - {txid}, v.base)
    else Cache(v.cacheCoins[txid := e], v.base)
  }

  /** A whole edit: begin, replace the coins by `edit` of them, end. */
  function Modify(v: View, txid: Hash256, edit: CCoins -> CCoins): View
    requires v.Cache?
  {
    var begun := BeginModify(v, txid);
    EndModify(AssignModified(begun, txid, edit(begun.cacheCoins[txid].coins)), txid)
  }

  /** What BatchWrite leaves in the parent for one entry of the child. */
  function MergeEntry(ours: Option<Entry>, child: Entry): Option<Entry> {
    if !child.isDirty then ours
    else match ours
      case None => if child.coins.IsPruned() then None else Some(Entry(child.coins, true, true))
      case Some(us) => if us.isFresh && child.coins.IsPruned() then None else Some(Entry(child.coins, true, us.isFresh))
  }

  ghost function Merge(cc: CacheMap, child: CacheMap): CacheMap {
    map t | t in cc.Keys + child.Keys && (t in child ==> MergeEntry(Find(cc, t), child[t]).Some?)
      :: if t in child then MergeEntry(Find(cc, t), child[t]).value else cc[t]
  }

  /** The database's BatchWrite: write dirty entries, erase the pruned ones among them. */
  ghost function WriteBack(db: CoinsMap, child: CacheMap): CoinsMap {
    map t | t in db.Keys + child.Keys &&
            (t in child && child[t].isDirty ==> !child[t].coins.IsPruned()) &&
            (t in child && !child[t].isDirty ==> t in db)
      :: if t in child && child[t].isDirty then child[t].coins else db[t]
  }

  /** Merging one more entry of the child touches that entry only. */
  lemma MergeStep(cc: CacheMap, done: CacheMap, t: Hash256, e: Entry)
    requires t !in done
    ensures Find(Merge(cc, done), t) == Find(cc, t)
    ensures Merge(cc, done[t := e]) == Put(Merge(cc, done), t, MergeEntry(Find(cc, t), e))
  {
    hide MergeEntry, CCoins.IsPruned;
  }

  lemma MergeNothing(cc: CacheMap)
    ensures Merge(cc, map[]) == cc
  {}

  lemma WriteBackStep(db: CoinsMap, done: CacheMap, t: Hash256, e: Entry)
    requires t !in done
    ensures Find(WriteBack(db, done), t) == Find(db, t)
    ensures WriteBack(db, done[t := e]) ==
      if !e.isDirty then WriteBack(db, done) else Put(WriteBack(db, done), t, Unpruned(Some(e.coins)))
  {
    hide CCoins.IsPruned;
  }

  ghost function BatchWritten(v: View, child: CacheMap): View {
    match v
    case Db(db) => Db(WriteBack(db, child))
    case Cache(cc, base) => Cache(Merge(cc, child), base)
  }

  ghost function Flushed(v: View): View
    requires v.Cache?
  {
    hide CCoins.IsPruned;
    Cache(map[], BatchWritten(v.base, v.cacheCoins))
  }

  // ----- The invariant that links flags and layers -----

  /** What an entry and its flags promise about the layer below. */
  ghost predicate EntryOk(e: Entry, txid: Hash256, base: View) {
    && e.coins.IsClean()
    && (e.isFresh ==> Shows(base, txid) == None)
    && (!e.isDirty ==> Shows(base, txid) == Unpruned(Some(e.coins)))
    && (!e.isFresh && base.Cache? ==> txid in base.cacheCoins)
  }

  ghost predicate Inv(v: View) {
    match v
    case Db(db) => forall t :: t in db ==> db[t].IsClean()
    case Cache(cc, base) => Inv(base) && forall t :: t in cc ==> EntryOk(cc[t], t, base)
  }

  /** The assertion inside BatchWrite, for every entry it meets. */
  ghost predicate BatchAssert(parent: View, child: CacheMap) {
    parent.Cache? ==>
      forall t :: t in child && child[t].isDirty && t !in parent.cacheCoins && !child[t].coins.IsPruned()
        ==> child[t].isFresh
  }

  // ----- Reads -----

  lemma {:induction false} LookupIsClean(v: View, txid: Hash256)
    requires Inv(v)
    ensures Lookup(v, txid).Some? ==> Lookup(v, txid).value.IsClean()
  {
    match v
    case Db(db) =>
    case Cache(cc, base) => LookupIsClean(base, txid);
  }

  /** HaveCoins looks only at whether `vout` is empty; on clean coins that is the right question. */
  lemma HaveCoinsMeansShown(v: View, txid: Hash256)
    requires Inv(v)
    ensures Lookup(v, txid).Some? && Lookup(v, txid).value.vout != [] <==> txid in Shown(v)
  {
    LookupIsClean(v, txid);
  }

  /** `after` answers every lookup with what `before` shows, and still holds what it held. */
  ghost predicate SameBelow(before: View, after: View) {
    && (forall t :: Shows(after, t) == Shows(before, t))
    && (before.Cache? <==> after.Cache?)
    && (before.Cache? ==> before.cacheCoins.Keys <= after.cacheCoins.Keys)
  }

  /** A read fills caches with what the lookup below them gives, and changes no lookup. */
  lemma {:induction false} FetchKeepsLookups(v: View, txid: Hash256, t: Hash256)
    ensures Lookup(Fetch(v, txid), t) == Lookup(v, t)
    decreases v
  {
    hide CCoins.IsPruned;
    match v
    case Db(_) =>
    case Cache(cc, base) => FetchKeepsLookups(base, txid, t);
  }

  lemma {:induction false} FetchKeepsViews(v: View, txid: Hash256)
    ensures Shown(Fetch(v, txid)) == Shown(v) && Views(Fetch(v, txid)) == Views(v)
    decreases v
  {
    hide CCoins.IsPruned, Lookup;
    forall t ensures Shows(Fetch(v, txid), t) == Shows(v, t) { FetchKeepsLookups(v, txid, t); }
    match v
    case Db(_) =>
    case Cache(cc, base) => FetchKeepsViews(base, txid);
  }

  lemma {:induction false} FetchKeepsInv(v: View, txid: Hash256)
    requires Inv(v)
    ensures Inv(Fetch(v, txid)) && SameBelow(v, Fetch(v, txid))
    decreases v
  {
    hide CCoins.CleanedUp, CCoins.IsPruned, CCoins.IsClean;
    forall t ensures Shows(Fetch(v, txid), t) == Shows(v, t) { FetchKeepsLookups(v, txid, t); }
    match v
    case Db(_) =>
    case Cache(cc, base) =>
      LookupIsClean(base, txid);
      FetchKeepsInv(base, txid);
      FetchedIsHeld(base, txid);
  }

  lemma FetchedIsHeld(v: View, txid: Hash256)
    ensures v.Cache? && Lookup(v, txid).Some? ==> txid in Fetch(v, txid).cacheCoins
  {}

  /** A read keeps the invariant and, layer by layer, everything the stack shows. */
  lemma FetchChangesNothing(v: View, txid: Hash256)
    requires Inv(v)
    ensures Inv(Fetch(v, txid)) && SameBelow(v, Fetch(v, txid))
    ensures Views(Fetch(v, txid)) == Views(v)
    ensures Lookup(Fetch(v, txid), txid) == Lookup(v, txid)
    ensures v.Cache? && Lookup(v, txid).Some? ==> txid in Fetch(v, txid).cacheCoins
  {
    hide Inv, SameBelow, Views, Lookup, Fetch;
    FetchKeepsInv(v, txid);
    FetchKeepsViews(v, txid);
    FetchKeepsLookups(v, txid, txid);
    FetchedIsHeld(v, txid);
  }

  // ----- One plain map per layer -----

  /** What each layer shows, top layer first. */
  ghost function Views(v: View): (r: seq<Plain>)
    ensures |r| > 0 && r[0] == Shown(v)
    ensures v.Cache? ==> |r| > 1 && r[1..] == Views(v.base)
  {
    match v
    case Db(_) => [Shown(v)]
    case Cache(_, base) => [Shown(v)] + Views(base)
  }

  // ----- Edits -----

  /** The coins an edit starts from. */
  function CurrentCoins(v: View, txid: Hash256): CCoins {
    match Lookup(v, txid)
    case None => EmptyCoins
    case Some(c) => c
  }

  ghost function PlainPut(m: Plain, txid: Hash256, c: CCoins): Plain {
    imap t | if t == txid then !c.IsPruned() else t in m :: if t == txid then c else m[t]
  }

  lemma BeginModifyOk(v: View, txid: Hash256)
    requires Inv(v) && v.Cache?
    ensures var begun := BeginModify(v, txid);
      && Inv(begun) && begun.Cache? && SameBelow(v.base, begun.base)
      && Views(begun.base) == Views(v.base)
      && begun.cacheCoins.Keys == v.cacheCoins.Keys + {txid}
      && begun.cacheCoins[txid].coins == CurrentCoins(v, txid) && begun.cacheCoins[txid].isDirty
      && forall t :: t in v.cacheCoins && t != txid ==> begun.cacheCoins[t] == v.cacheCoins[t]
  {
    FetchChangesNothing(v.base, txid);
    LookupIsClean(v.base, txid);
    var begun := BeginModify(v, txid);
    forall t | t in v.cacheCoins && t != txid ensures EntryOk(begun.cacheCoins[t], t, begun.base) {
      assert EntryOk(v.cacheCoins[t], t, v.base);
    }
    if txid in v.cacheCoins {
      assert EntryOk(v.cacheCoins[txid], txid, v.base);
    }
    assert EntryOk(begun.cacheCoins[txid], txid, begun.base);
  }

  lemma BeginModifyShows(v: View, txid: Hash256)
    requires Inv(v) && v.Cache?
    ensures Shown(BeginModify(v, txid)) == Shown(v)
  {
    hide Inv, CCoins.CleanedUp, Fetch;
    BeginModifyOk(v, txid);
    forall t ensures Shows(BeginModify(v, txid), t) == Shows(v, t) {
      assert Shows(BeginModify(v, txid).base, t) == Shows(v.base, t);
    }
  }

  lemma EndModifyOk(begun: View, txid: Hash256, written: CCoins)
    requires Inv(begun) && begun.Cache? && txid in begun.cacheCoins && begun.cacheCoins[txid].isDirty
    ensures var r := EndModify(AssignModified(begun, txid, written), txid);
      && Inv(r) && r.Cache? && r.base == begun.base
      && Shown(r) == PlainPut(Shown(begun), txid, written.CleanedUp())
  {
    hide EntryOk, EndModify;
    var r := EndModify(AssignModified(begun, txid, written), txid);
    EndModifyFinds(begun, txid, written);
    forall t ensures Shows(r, t) == if t == txid then Unpruned(Some(written.CleanedUp())) else Shows(begun, t) {
      EndModifyShows(begun, txid, written, t);
    }
  }

  /** The one entry that ends the edit, if it stays at all. */
  lemma EndModifyFinds(begun: View, txid: Hash256, written: CCoins)
    requires Inv(begun) && begun.Cache? && txid in begun.cacheCoins && begun.cacheCoins[txid].isDirty
    ensures var r := EndModify(AssignModified(begun, txid, written), txid);
      && r.Cache? && r.base == begun.base
      && forall t :: t in r.cacheCoins ==> EntryOk(r.cacheCoins[t], t, r.base)
  {
    hide CCoins.CleanedUp, CCoins.IsPruned, Shows;
    var r := EndModify(AssignModified(begun, txid, written), txid);
    assert EntryOk(begun.cacheCoins[txid], txid, begun.base);
    forall t | t in r.cacheCoins ensures EntryOk(r.cacheCoins[t], t, r.base) {
      assert EntryOk(begun.cacheCoins[t], t, begun.base);
    }
  }

  lemma EndModifyShows(begun: View, txid: Hash256, written: CCoins, t: Hash256)
    requires Inv(begun) && begun.Cache? && txid in begun.cacheCoins && begun.cacheCoins[txid].isDirty
    ensures var r := EndModify(AssignModified(begun, txid, written), txid);
      Shows(r, t) == if t == txid then Unpruned(Some(written.CleanedUp())) else Shows(begun, t)
  {
    hide CCoins.CleanedUp, CCoins.IsPruned;
    assert EntryOk(begun.cacheCoins[txid], txid, begun.base);
  }

  /** An edit changes what the top layer shows for its own txid and nothing else. */
  lemma ModifyEditsOneTxid(v: View, txid: Hash256, edit: CCoins -> CCoins)
    requires Inv(v) && v.Cache?
    ensures Inv(Modify(v, txid, edit)) && Modify(v, txid, edit).Cache?
    ensures Views(Modify(v, txid, edit)) ==
      [PlainPut(Shown(v), txid, edit(CurrentCoins(v, txid)).CleanedUp())] + Views(v)[1..]
  {
    BeginModifyOk(v, txid);
    var begun := BeginModify(v, txid);
    var written := edit(begun.cacheCoins[txid].coins);
    EndModifyOk(begun, txid, written);
    BeginModifyShows(v, txid);
  }

  // ----- Flush -----

  lemma FlushAssertHolds(v: View)
    requires Inv(v) && v.Cache?
    ensures BatchAssert(v.base, v.cacheCoins)
  {
    forall t | t in v.cacheCoins ensures EntryOk(v.cacheCoins[t], t, v.base) {}
  }

  lemma MergeShows(cc: CacheMap, base: View, child: CacheMap, t: Hash256)
    requires Inv(Cache(child, Cache(cc, base)))
    ensures Shows(Cache(Merge(cc, child), base), t) == Shows(Cache(child, Cache(cc, base)), t)
    ensures t in Merge(cc, child) ==> EntryOk(Merge(cc, child)[t], t, base)
  {
    var ours, merged := Find(cc, t), Merge(cc, child);
    assert Find(merged, t) == if t in child then MergeEntry(ours, child[t]) else ours;
    if t in cc { assert EntryOk(cc[t], t, base); }
    if t in child { assert EntryOk(child[t], t, Cache(cc, base)); }
    assert Lookup(Cache(cc, base), t) == if t in cc then Some(cc[t].coins) else Lookup(base, t);
    assert Lookup(Cache(merged, base), t) == if t in merged then Some(merged[t].coins) else Lookup(base, t);
  }

  lemma WriteBackShows(db: CoinsMap, child: CacheMap, t: Hash256)
    requires Inv(Cache(child, Db(db)))
    ensures Shows(Db(WriteBack(db, child)), t) == Shows(Cache(child, Db(db)), t)
    ensures t in WriteBack(db, child) ==> WriteBack(db, child)[t].IsClean()
  {
    assert Find(WriteBack(db, child), t) ==
      if t in child && child[t].isDirty then Unpruned(Some(child[t].coins)) else Find(db, t);
    if t in child { assert EntryOk(child[t], t, Db(db)); }
    assert Lookup(Db(db), t) == Find(db, t);
    assert Lookup(Db(WriteBack(db, child)), t) == Find(WriteBack(db, child), t);
  }

  lemma BatchWriteShows(v: View)
    requires Inv(v) && v.Cache?
    ensures Inv(BatchWritten(v.base, v.cacheCoins))
    ensures forall t :: Shows(BatchWritten(v.base, v.cacheCoins), t) == Shows(v, t)
    ensures v.base.Cache? ==> BatchWritten(v.base, v.cacheCoins).base == v.base.base
  {
    match v.base
    case Db(db) => forall t { WriteBackShows(db, v.cacheCoins, t); }
    case Cache(cc, base) => forall t { MergeShows(cc, base, v.cacheCoins, t); }
  }

  /** Flushing the top layer makes the layer below show what the top showed; nothing else moves. */
  lemma FlushHandsDown(v: View)
    requires Inv(v) && v.Cache?
    ensures Inv(Flushed(v))
    ensures Views(Flushed(v)) == [Shown(v), Shown(v)] + Views(v)[2..]
  {
    hide Inv, BatchWritten, Views, Shows;
    BatchWriteShows(v);
    var below := BatchWritten(v.base, v.cacheCoins);
    EmptyLayer(below);
    LayersBelow(v);
    assert Shown(below) == Shown(v);
    assert Views(below) == [Shown(below)] + Views(below)[1..];
    assert Views(Flushed(v)) == [Shown(Flushed(v))] + Views(below);
    assert Views(v)[2..] == Views(v.base)[1..];
  }

  /** A batch written to the layer below changes no layer under that one. */
  lemma LayersBelow(v: View)
    requires v.Cache? && (v.base.Cache? ==> BatchWritten(v.base, v.cacheCoins).base == v.base.base)
    ensures Views(BatchWritten(v.base, v.cacheCoins))[1..] == Views(v.base)[1..]
  {
    hide Merge, WriteBack, Shown;
  }

  /** An empty layer shows what is below it. */
  lemma EmptyLayer(below: View)
    ensures Shown(Cache(map[], below)) == Shown(below)
    ensures Inv(below) ==> Inv(Cache(map[], below))
  {
    hide CCoins.IsPruned;
    assert forall t :: Shows(Cache(map[], below), t) == Shows(below, t);
  }

  // ----- Runs -----

  /** One use of the stack's top layer, or a layer put on or dropped without a flush. */
  datatype Op =
    | Read(txid: Hash256)
    | Edit(editId: Hash256, edit: CCoins -> CCoins)
    | Flush
    | PushLayer
    | DropLayer

  predicate Applicable(v: View, op: Op) {
    op.Edit? || op.Flush? || op.DropLayer? ==> v.Cache?
  }

  ghost function Step(v: View, op: Op): View
    requires Applicable(v, op)
  {
    match op
    case Read(t) => Fetch(v, t)
    case Edit(t, edit) => Modify(v, t, edit)
    case Flush => Flushed(v)
    case PushLayer => Cache(map[], v)
    case DropLayer => v.base
  }

  /**
    The same operations on one plain map per layer, with no flags and no caching. An edit of a
    transaction that is not shown may start from any coins that are wholly spent.
    */
  ghost predicate PlainNext(ms: seq<Plain>, op: Op, ms': seq<Plain>)
    requires |ms| > 0
  {
    match op
    case Read(_) => ms' == ms
    case Edit(t, edit) => exists current: CCoins ::
      && (if t in ms[0] then current == ms[0][t] else current.IsPruned())
      && ms' == [PlainPut(ms[0], t, edit(current).CleanedUp())] + ms[1..]
    case Flush => |ms| > 1 && ms' == [ms[0], ms[0]] + ms[2..]
    case PushLayer => ms' == [ms[0]] + ms
    case DropLayer => |ms| > 1 && ms' == ms[1..]
  }

  lemma EditRefinesPlainEdit(v: View, txid: Hash256, edit: CCoins -> CCoins)
    requires Inv(v) && v.Cache?
    ensures Inv(Modify(v, txid, edit))
    ensures PlainNext(Views(v), Edit(txid, edit), Views(Modify(v, txid, edit)))
  {
    hide Inv, Modify, CCoins.CleanedUp, CCoins.IsPruned, PlainPut;
    ModifyEditsOneTxid(v, txid, edit);
    CurrentIsShown(v, txid);
  }

  /** An edit starts from what the layer shows, or from spent coins. */
  lemma CurrentIsShown(v: View, txid: Hash256)
    requires Inv(v) && v.Cache?
    ensures if txid in Shown(v) then CurrentCoins(v, txid) == Shown(v)[txid] else CurrentCoins(v, txid).IsPruned()
  {}

  lemma StepRefinesPlainStep(v: View, op: Op)
    requires Inv(v) && Applicable(v, op)
    ensures Inv(Step(v, op))
    ensures PlainNext(Views(v), op, Views(Step(v, op)))
    ensures op.Flush? ==> BatchAssert(v.base, v.cacheCoins)
  {
    hide Fetch, Modify, Flushed, Shown, BatchAssert;
    match op
    case Read(t) => FetchChangesNothing(v, t);
    case Edit(t, edit) => EditRefinesPlainEdit(v, t, edit);
    case Flush => FlushHandsDown(v); FlushAssertHolds(v);
    case PushLayer => EmptyLayer(v);
    case DropLayer =>
  }

  /** The states of a run: consecutive states are related by the operation between them. */
  ghost predicate IsRun(vs: seq<View>, ops: seq<Op>) {
    && |vs| == |ops| + 1
    && forall i :: 0 <= i < |ops| ==> Applicable(vs[i], ops[i]) && vs[i + 1] == Step(vs[i], ops[i])
  }

  lemma {:induction false} RunKeepsInv(vs: seq<View>, ops: seq<Op>, n: nat)
    requires IsRun(vs, ops) && Inv(vs[0]) && n < |vs|
    ensures Inv(vs[n])
  {
    hide Inv, Step, Views, PlainNext, BatchAssert;
    if n > 0 {
      RunKeepsInv(vs, ops, n - 1);
      StepRefinesPlainStep(vs[n - 1], ops[n - 1]);
    }
  }

  /**
    Over any run of a stack of any depth, what the layers show evolves as the plain maps do, the
    invariant holds throughout, and no flush trips the assertion of BatchWrite.
    */
  lemma RunsRefinePlainMaps(vs: seq<View>, ops: seq<Op>)
    requires IsRun(vs, ops) && Inv(vs[0])
    ensures forall i :: 0 <= i < |vs| ==> Inv(vs[i])
    ensures forall i :: 0 <= i < |ops| ==> PlainNext(Views(vs[i]), ops[i], Views(vs[i + 1]))
    ensures forall i :: 0 <= i < |ops| && ops[i].Flush? ==>
      Applicable(vs[i], ops[i]) && BatchAssert(vs[i].base, vs[i].cacheCoins)
  {
    hide Inv, Step, Views, PlainNext, BatchAssert;
    forall i | 0 <= i < |vs| ensures Inv(vs[i]) {
      RunKeepsInv(vs, ops, i);
    }
    forall i | 0 <= i < |ops|
      ensures PlainNext(Views(vs[i]), ops[i], Views(vs[i + 1]))
      ensures ops[i].Flush? ==> BatchAssert(vs[i].base, vs[i].cacheCoins)
    {
      StepRefinesPlainStep(vs[i], ops[i]);
    }
  }
}
