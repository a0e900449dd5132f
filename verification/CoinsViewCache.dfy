/**
  The cache objects of coins.cpp. A view reference is either the database or another cache;
  every method carries out one transition of CoinsView.View on the whole stack below it.
  */
module CoinsViewCache {
  import opened Prelude
  import opened Coins
  import V = CoinsView

  class CCoinsViewDB {
    var coinsDb: V.CoinsMap

    constructor (db: V.CoinsMap)
      ensures coinsDb == db
    {
      coinsDb := db;
    }

    method BatchWrite(mapCoins: V.CacheMap)
      modifies this
      ensures coinsDb == V.WriteBack(old(coinsDb), mapCoins)
    {
      var pending := mapCoins;
      ghost var done: V.CacheMap := map[];
      while pending.Keys != {}
        invariant pending.Keys !! done.Keys && done + pending == mapCoins
        invariant coinsDb == V.WriteBack(old(coinsDb), done)
        decreases pending.Keys
      {
        var t :| t in pending.Keys;
        V.WriteBackStep(old(coinsDb), done, t, pending[t]);
        if pending[t].isDirty {
          if pending[t].coins.IsPruned() {
            coinsDb := coinsDb - {t};
          } else {
            coinsDb := coinsDb[t := pending[t].coins];
          }
        }
        done := done[t := pending[t]];
        pending := pending - {t};
      }
      assert done == mapCoins;
    }
  }

  datatype ViewRef = DbRef(db: CCoinsViewDB) | CacheRef(cache: CCoinsViewCache)

  class CCoinsViewCache {
    const base: ViewRef
    var cacheCoins: V.CacheMap
    var hasModifier: bool
    ghost const Repr: set<object>

    /** The layers below are distinct objects, so the stack is finite. */
    ghost predicate Wired()
      decreases Repr
    {
      && this in Repr
      && match base
         case DbRef(d) => d in Repr
         case CacheRef(c) => c in Repr && c.Repr <= Repr && this !in c.Repr && c.Wired()
    }

    ghost function Abs(): V.View
      requires Wired()
      reads Repr
      decreases Repr
    {
      V.Cache(cacheCoins, BaseAbs())
    }

    ghost function BaseAbs(): V.View
      requires Wired()
      reads Repr - {this}
      decreases Repr, 0
    {
      match base
      case DbRef(d) => V.Db(d.coinsDb)
      case CacheRef(c) => c.Abs()
    }

    /** The hasModifier flag of every layer, top first. */
    ghost function Modifiers(): seq<bool>
      requires Wired()
      reads Repr
      decreases Repr
    {
      [hasModifier] + BaseModifiers()
    }

    ghost function BaseModifiers(): seq<bool>
      requires Wired()
      reads Repr - {this}
      decreases Repr, 0
    {
      match base
      case DbRef(_) => []
      case CacheRef(c) => c.Modifiers()
    }

    constructor (baseIn: ViewRef)
      requires baseIn.CacheRef? ==> baseIn.cache.Wired()
      ensures Wired() && base == baseIn && !hasModifier && cacheCoins == map[]
      ensures fresh(Repr - (match baseIn case DbRef(d) => {d} case CacheRef(c) => c.Repr))
      ensures Abs() == V.Cache(map[], match baseIn case DbRef(d) => V.Db(d.coinsDb) case CacheRef(c) => c.Abs())
    {
      base := baseIn;
      cacheCoins := map[];
      hasModifier := false;
      Repr := {this} + match baseIn { case DbRef(d) => {d} case CacheRef(c) => c.Repr };
    }

    /** base->GetCoins, whichever kind of view the base is. */
    method BaseGetCoins(txid: Hash256) returns (found: bool, coins: CCoins)
      requires Wired()
      modifies Repr - {this}
      ensures BaseAbs() == V.Fetch(old(BaseAbs()), txid) && BaseModifiers() == old(BaseModifiers())
      ensures V.Lookup(old(BaseAbs()), txid) == if found then Some(coins) else None
      decreases Repr, 0
    {
      found, coins := false, EmptyCoins;
      match base
      case DbRef(d) =>
        if txid in d.coinsDb {
          found, coins := true, d.coinsDb[txid];
        }
      case CacheRef(c) =>
        found, coins := c.GetCoins(txid);
    }

    method FetchCoins(txid: Hash256) returns (found: bool)
      requires Wired()
      modifies Repr
      ensures Abs() == V.Fetch(old(Abs()), txid) && Modifiers() == old(Modifiers())
      ensures found <==> txid in cacheCoins
      ensures V.Lookup(old(Abs()), txid) == if found then Some(cacheCoins[txid].coins) else None
      decreases Repr, 1
    {
      if txid in cacheCoins {
        return true;
      }
      var inBase, tmp := BaseGetCoins(txid);
      if !inBase {
        return false;
      }
      cacheCoins := cacheCoins[txid := V.Entry(tmp, false, false)];
      if tmp.IsPruned() {
        cacheCoins := cacheCoins[txid := V.Entry(tmp, false, true)];
      }
      found := true;
    }

    method GetCoins(txid: Hash256) returns (found: bool, coins: CCoins)
      requires Wired()
      modifies Repr
      ensures Abs() == V.Fetch(old(Abs()), txid) && Modifiers() == old(Modifiers())
      ensures V.Lookup(old(Abs()), txid) == if found then Some(coins) else None
      decreases Repr, 2
    {
      found := FetchCoins(txid);
      coins := if found then cacheCoins[txid].coins else EmptyCoins;
    }

    /** True exactly when the stack shows unspent outputs for the transaction. */
    method HaveCoins(txid: Hash256) returns (have: bool)
      requires Wired() && V.Inv(Abs())
      modifies Repr
      ensures Abs() == V.Fetch(old(Abs()), txid) && V.Inv(Abs()) && Modifiers() == old(Modifiers())
      ensures have <==> txid in V.Shown(old(Abs()))
    {
      V.HaveCoinsMeansShown(Abs(), txid);
      V.FetchChangesNothing(Abs(), txid);
      var found := FetchCoins(txid);
      have := found && cacheCoins[txid].coins.vout != [];
    }

    /** Hands out the one modifier a cache may have at a time. */
    method ModifyCoins(txid: Hash256)
      requires Wired() && !hasModifier
      modifies Repr
      ensures Abs() == V.BeginModify(old(Abs()), txid)
      ensures hasModifier && BaseModifiers() == old(BaseModifiers())
    {
      hide V.Fetch, V.Lookup, CCoins.IsPruned;
      if txid !in cacheCoins {
        cacheCoins := cacheCoins[txid := V.Entry(EmptyCoins, false, false)];
        var inBase, coins := BaseGetCoins(txid);
        if !inBase {
          cacheCoins := cacheCoins[txid := V.Entry(EmptyCoins, false, true)];
        } else {
          cacheCoins := cacheCoins[txid := V.Entry(coins, false, coins.IsPruned())];
        }
        assert cacheCoins == old(cacheCoins)[txid := cacheCoins[txid]];
      }
      cacheCoins := cacheCoins[txid := cacheCoins[txid].(isDirty := true)];
      hasModifier := true;
    }

    /** A write through the modifier. */
    method AssignModified(txid: Hash256, coins: CCoins)
      requires Wired() && hasModifier && txid in cacheCoins
      modifies this
      ensures Abs() == V.AssignModified(old(Abs()), txid, coins) && Modifiers() == old(Modifiers())
    {
      cacheCoins := cacheCoins[txid := cacheCoins[txid].(coins := coins)];
    }

    /** The modifier's destructor. */
    method ReleaseModifier(txid: Hash256)
      requires Wired() && hasModifier && txid in cacheCoins
      modifies this
      ensures Abs() == V.EndModify(old(Abs()), txid)
      ensures !hasModifier && BaseModifiers() == old(BaseModifiers())
    {
      hasModifier := false;
      var cleaned := Cleanup(cacheCoins[txid].coins);
      cacheCoins := cacheCoins[txid := cacheCoins[txid].(coins := cleaned)];
      if cacheCoins[txid].isFresh && cleaned.IsPruned() {
        cacheCoins := cacheCoins - {txid};
        assert cacheCoins == old(cacheCoins) - {txid};
      }
    }

    method BatchWrite(mapCoins: V.CacheMap)
      requires Wired() && !hasModifier && V.BatchAssert(Abs(), mapCoins)
      modifies this
      ensures Abs() == V.BatchWritten(old(Abs()), mapCoins) && Modifiers() == old(Modifiers())
    {
      hide V.Merge;
      V.MergeNothing(cacheCoins);
      var pending := mapCoins;
      ghost var done: V.CacheMap := map[];
      while pending.Keys != {}
        invariant pending.Keys !! done.Keys && done + pending == mapCoins
        invariant cacheCoins == V.Merge(old(cacheCoins), done)
        invariant hasModifier == old(hasModifier)
        decreases pending.Keys
      {
        var t :| t in pending.Keys;
        var e := pending[t];
        V.MergeStep(old(cacheCoins), done, t, e);
        if e.isDirty {
          if t !in cacheCoins {
            if !e.coins.IsPruned() {
              assert e.isFresh;
              cacheCoins := cacheCoins[t := V.Entry(e.coins, true, true)];
            }
          } else if cacheCoins[t].isFresh && e.coins.IsPruned() {
            cacheCoins := cacheCoins - {t};
          } else {
            cacheCoins := cacheCoins[t := V.Entry(e.coins, true, cacheCoins[t].isFresh)];
          }
        }
        done := done[t := pending[t]];
        pending := pending - {t};
      }
      assert done == mapCoins;
    }

    /** Pushes this layer down. That BatchWrite's assertion holds follows from the invariant. */
    method Flush()
      requires Wired() && V.Inv(Abs())
      requires base.CacheRef? ==> !base.cache.hasModifier
      modifies Repr
      ensures Abs() == V.Flushed(old(Abs())) && V.Inv(Abs())
      ensures Modifiers() == old(Modifiers())
    {
      V.FlushAssertHolds(Abs());
      V.FlushHandsDown(Abs());
      assert V.BatchAssert(BaseAbs(), cacheCoins);
      match base {
        case DbRef(d) => d.BatchWrite(cacheCoins);
        case CacheRef(c) => c.BatchWrite(cacheCoins);
      }
      cacheCoins := map[];
    }
  }
}
