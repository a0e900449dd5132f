/**
  CCoins: the unspent outputs of one transaction. A spent output is null, and null outputs
  at the end of `vout` are dropped by Cleanup.
  */
module Coins {
  import opened Prelude

  type Script = seq<Byte>

  datatype TxOut = TxOut(nValue: int, scriptPubKey: Script) {
    predicate IsNull() {
      nValue == -1
    }
  }

  const NullTxOut := TxOut(-1, [])

  datatype CCoins = CCoins(fCoinBase: bool, fCoinStake: bool, vout: seq<TxOut>, nHeight: int, nVersion: int) {
    predicate IsPruned() {
      forall i :: 0 <= i < |vout| ==> vout[i].IsNull()
    }

    predicate IsAvailable(nPos: nat) {
      nPos < |vout| && !vout[nPos].IsNull()
    }

    /** No null output at the end: what Cleanup establishes. */
    predicate IsClean() {
      |vout| > 0 ==> !vout[|vout| - 1].IsNull()
    }

    function CleanedUp(): (r: CCoins)
      ensures r.IsClean()
      ensures r.IsPruned() <==> IsPruned()
      ensures IsClean() ==> r == this
      ensures forall n: nat :: r.IsAvailable(n) <==> IsAvailable(n)
      ensures r.vout <= vout
      ensures r == this.(vout := r.vout)
      decreases |vout|
    {
      if |vout| > 0 && vout[|vout| - 1].IsNull() then this.(vout := vout[..|vout| - 1]).CleanedUp() else this
    }
  }

  const EmptyCoins := CCoins(false, false, [], 0, 0)

  /** The loop of CCoins::Cleanup. */
  method Cleanup(coins: CCoins) returns (r: CCoins)
    ensures r == coins.CleanedUp()
  {
    r := coins;
    while |r.vout| > 0 && r.vout[|r.vout| - 1].IsNull()
      invariant r.CleanedUp() == coins.CleanedUp()
      decreases |r.vout|
    {
      r := r.(vout := r.vout[..|r.vout| - 1]);
    }
  }

  datatype TxInUndo = TxInUndo(txout: TxOut, fCoinBase: bool, fCoinStake: bool, nHeight: int, nVersion: int)

  /**
    CCoins::Spend. The undo record holds what is needed to restore the coins: the output, and
    the metadata when this was the last unspent output.
    */
  method Spend(coins: CCoins, n: nat) returns (ok: bool, after: CCoins, undo: TxInUndo)
    ensures ok <==> coins.IsAvailable(n)
    ensures !ok ==> after == coins
    ensures ok ==> undo.txout == coins.vout[n] && after.IsClean()
    ensures ok ==> forall m: nat :: after.IsAvailable(m) <==> m != n && coins.IsAvailable(m)
    ensures ok ==> forall m: nat :: after.IsAvailable(m) ==> m < |coins.vout| && after.vout[m] == coins.vout[m]
    ensures ok ==> after == coins.(vout := after.vout)
    ensures ok && after.IsPruned() ==>
      undo == TxInUndo(coins.vout[n], coins.fCoinBase, coins.fCoinStake, coins.nHeight, coins.nVersion)
    ensures ok && !after.IsPruned() ==> undo == TxInUndo(coins.vout[n], false, false, 0, 0)
  {
    after := coins;
    undo := TxInUndo(NullTxOut, false, false, 0, 0);
    if n >= |coins.vout| || coins.vout[n].IsNull() {
      return false, after, undo;
    }
    undo := TxInUndo(coins.vout[n], false, false, 0, 0);
    ghost var nulled := coins.(vout := coins.vout[n := NullTxOut]);
    after := Cleanup(coins.(vout := coins.vout[n := NullTxOut]));
    assert forall m: nat :: after.IsAvailable(m) <==> nulled.IsAvailable(m);
    assert after.IsPruned() <==> |after.vout| == 0;
    if |after.vout| == 0 {
      undo := TxInUndo(coins.vout[n], coins.fCoinBase, coins.fCoinStake, coins.nHeight, coins.nVersion);
    }
    ok := true;
  }
}
