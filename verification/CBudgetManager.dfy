/** CBudgetManager: the object and its loops, which carry out the transitions of Budget. */
module CBudgetManager {
  import opened Coins
  import opened Prelude
  import opened Budget

  /** More votes than five percent of the masternodes. */
  ghost predicate Supported(env: Env, s: State, f: Finalized, nBlockHeight: int) {
    Payable(env, s, f, nBlockHeight) && f.VoteCount() > env.nEnabled / 20
  }

  ghost predicate Contains(vout: seq<TxOut>, p: Payment) {
    exists i :: 0 <= i < |vout| && vout[i].scriptPubKey == p.payee && vout[i].nValue == p.nAmount
  }

  /** A block filled with a payment contains it; a staking block keeps its outputs, another one its first, worth the block's value. */
  lemma PaidOutputs(vout: seq<TxOut>, blockValue: int, fProofOfStake: bool, p: Option<Payment>)
    requires !fProofOfStake ==> |vout| > 0
    ensures var r := Paid(vout, blockValue, fProofOfStake, p);
      && (p.Some? ==> Contains(r, p.value))
      && (fProofOfStake ==> vout <= r && |r| == |vout| + if p.Some? then 1 else 0)
      && (!fProofOfStake ==> r[0] == TxOut(blockValue, vout[0].scriptPubKey) && if p.Some? then |r| == 2 else r[1..] == vout[1..])
  {
    var r := Paid(vout, blockValue, fProofOfStake, p);
    if p.Some? {
      var last := r[|r| - 1];
      assert last.scriptPubKey == p.value.payee && last.nValue == p.value.nAmount;
    }
  }

  class CBudgetManager {
    const h: Hashes
    var mapProposals: map<Hash256, Proposal>
    var mapFinalizedBudgets: map<Hash256, Finalized>
    var mapSeenVetoVotes: map<Hash256, Veto>
    var seenProposals: set<Hash256>
    var seenVotes: set<Hash256>
    var seenFinalized: set<Hash256>
    var seenFinalizedVotes: set<Hash256>

    ghost function Abs(): State
      reads this
    {
      State(mapProposals, mapFinalizedBudgets, mapSeenVetoVotes, seenProposals, seenVotes, seenFinalized, seenFinalizedVotes)
    }

    constructor (h: Hashes)
      ensures this.h == h && Abs() == Empty
    {
      this.h := h;
      mapProposals, mapFinalizedBudgets, mapSeenVetoVotes := map[], map[], map[];
      seenProposals, seenVotes, seenFinalized, seenFinalizedVotes := {}, {}, {}, {};
    }

    method Clear()
      modifies this
      ensures Abs() == Empty
    {
      mapProposals, mapFinalizedBudgets := map[], map[];
      seenProposals, seenVotes, seenFinalized, seenFinalizedVotes := {}, {}, {}, {};
      mapSeenVetoVotes := map[];
    }

    method ClearSeen()
      modifies this
      ensures Abs() == Budget.ClearSeen(old(Abs()))
      ensures seenProposals == seenVotes == seenFinalized == seenFinalizedVotes == {}
      ensures mapProposals == old(mapProposals) && mapFinalizedBudgets == old(mapFinalizedBudgets) && mapSeenVetoVotes == old(mapSeenVetoVotes)
    {
      seenProposals := {};
      seenVotes := {};
      seenFinalized := {};
      seenFinalizedVotes := {};
    }

    // ----- Vetoes -----

    method HasVetoVoteForProposal(nProposalHash: Hash256) returns (r: bool)
      ensures r <==> HasVeto(Abs(), nProposalHash)
    {
      var todo := mapSeenVetoVotes.Keys;
      while todo != {}
        invariant todo <= mapSeenVetoVotes.Keys
        invariant forall k :: k in mapSeenVetoVotes && k !in todo ==>
          !(mapSeenVetoVotes[k].nProposalHash == nProposalHash && mapSeenVetoVotes[k].fValid)
        decreases |todo|
      {
        var k :| k in todo;
        todo := todo - {k};
        if mapSeenVetoVotes[k].nProposalHash == nProposalHash && mapSeenVetoVotes[k].fValid {
          return true;
        }
      }
      return false;
    }

    method IsVetoedAt(env: Env, nProposalHash: Hash256, nHeight: int) returns (r: bool)
      ensures r <==> IsVetoed(env, Abs(), nProposalHash, nHeight)
    {
      if nHeight < env.vetoForkHeight {
        return false;
      }
      r := HasVetoVoteForProposal(nProposalHash);
    }

    method FinalizedBudgetPaymentVetoed(env: Env, f: Finalized, nBlockHeight: int) returns (r: bool)
      ensures r <==> PaymentVetoed(env, Abs(), f, nBlockHeight)
    {
      var nPaymentIndex := nBlockHeight - f.nBlockStart;
      if nPaymentIndex < 0 || nPaymentIndex > |f.vecBudgetPayments| - 1 {
        return false;
      }
      r := IsVetoedAt(env, f.vecBudgetPayments[nPaymentIndex].nProposalHash, nBlockHeight);
    }

    /** CBudgetProposal::IsValid; a tip that is missing ends it early. */
    method ProposalIsValid(env: Env, p: Proposal) returns (ok: bool)
      ensures ok <==> ProposalValid(h, env, Abs(), p)
    {
      hide HasVeto, Proposal.Count;
      var t := p.terms;
      var vetoed := IsVetoedAt(env, h.terms(t), env.TipHeight());
      if vetoed { return false; }
      if p.Count(VOTE_NO) - p.Count(VOTE_YES) > env.nEnabled / 10 { return false; }
      if env.TipHeight() < env.vetoForkHeight && env.sporkVeto(t) { return false; }
      if t.nBlockStart < 0 { return false; }
      if t.nBlockEnd < t.nBlockStart { return false; }
      if t.nAmount < 10 * COIN { return false; }
      if t.address == [] { return false; }
      if !env.collateralOk(p.nFeeTXHash, h.terms(t)) { return false; }
      if IsPayToScriptHash(t.address) { return false; }
      if t.nAmount > env.TotalBudget(t.nBlockStart) { return false; }
      if env.tip.None? { return true; }
      var nPayments := (t.nBlockEnd - (t.nBlockStart - t.nBlockStart % env.Cycle())) / env.Cycle();
      var nProposalEnd := t.nBlockStart + env.Cycle() * nPayments;
      ok := nProposalEnd >= env.tip.value;
    }

    method AddVetoVote(env: Env, nProposalHash: Hash256, nTime: int, vchSig: seq<Byte>, fSignatureOk: bool) returns (error: Option<VetoError>)
      modifies this
      ensures (Abs(), error) == AddVeto(h, env, old(Abs()), nProposalHash, nTime, vchSig, fSignatureOk)
      ensures error.None? <==> VetoAccepted(h, old(Abs()), nProposalHash, nTime, fSignatureOk)
      ensures error.Some? ==> Abs() == old(Abs())
      ensures error.None? ==> HasVeto(Abs(), nProposalHash)
    {
      hide HasVeto, ProposalValid;
      OnlySignedVetoes(h, env, Abs(), nProposalHash, nTime, vchSig, fSignatureOk);
      VetoIsRecorded(h, env, Abs(), nProposalHash, nTime, vchSig, fSignatureOk, nProposalHash);
      if nProposalHash == 0 {
        return Some(InvalidProposalHash);
      }
      var has := HasVetoVoteForProposal(nProposalHash);
      if has {
        return Some(AlreadyVetoed);
      }
      var key := h.veto(nProposalHash, nTime);
      if key in mapSeenVetoVotes {
        return Some(DuplicateVote);
      }
      if !fSignatureOk {
        return Some(InvalidSignature);
      }
      mapSeenVetoVotes := mapSeenVetoVotes[key := Veto(nProposalHash, nTime, vchSig, true, false)];
      if nProposalHash in mapProposals {
        var p := mapProposals[nProposalHash];
        var valid := ProposalIsValid(env, p);
        mapProposals := mapProposals[nProposalHash := p.(fValid := valid)];
      }
      return None;
    }

    // ----- GetBudget -----

    method GetBudget(env: Env, order: seq<Hash256>) returns (ret: seq<Hash256>)
      requires Ranked(CleanedProposals(env, mapProposals), order)
      modifies this`mapProposals
      ensures (Abs(), ret) == Budget.GetBudget(h, env, old(Abs()), order)
    {
      hide CleanVotes, HasVeto, Proposal.Count, AllotStep, Ranked;
      ghost var s := Abs();
      mapProposals := CleanedProposals(env, mapProposals);
      ret := [];
      if env.tip.None? {
        return;
      }
      ghost var m := mapProposals;
      var nBudgetAllocated := 0;
      var nBlockStart := env.tip.value - env.tip.value % env.Cycle() + env.Cycle();
      RankedMembers(m, order);
      for i := 0 to |order|
        invariant Allotment(mapProposals, ret, nBudgetAllocated) == Allotted(h, env, s, m, order, i)
        invariant Abs() == s.(mapProposals := mapProposals)
      {
        ret, nBudgetAllocated := AllotOne(env, order[i], nBlockStart, ret, nBudgetAllocated, s);
      }
    }

    /** One round of its loop. */
    method AllotOne(env: Env, k: Hash256, nBlockStart: int, ret: seq<Hash256>, nBudgetAllocated: int, ghost s: State)
      returns (ret': seq<Hash256>, nBudgetAllocated': int)
      requires k in mapProposals && s.mapSeenVetoVotes == mapSeenVetoVotes
      modifies this`mapProposals
      ensures Allotment(mapProposals, ret', nBudgetAllocated')
        == AllotStep(h, env, s, Allotment(old(mapProposals), ret, nBudgetAllocated), k, nBlockStart)
    {
      hide HasVeto, Proposal.Count, Env.TotalBudget, Env.Established, Env.Cycle;
      var p := mapProposals[k];
      SameVetoes(s, Abs(), h.terms(p.terms));
      ret', nBudgetAllocated' := ret, nBudgetAllocated;
      var nBlockEnd := nBlockStart + env.Cycle() - 1;
      var vetoed := IsVetoedAt(env, h.terms(p.terms), nBlockStart);
      if p.fValid && !vetoed && p.terms.nBlockStart <= nBlockStart && p.terms.nBlockEnd >= nBlockEnd
        && p.Count(VOTE_YES) - p.Count(VOTE_NO) > env.nEnabled / 10 && env.Established(p.nTime)
      {
        if p.terms.nAmount + nBudgetAllocated <= env.TotalBudget(nBlockStart) {
          mapProposals := mapProposals[k := p.(nAlloted := p.terms.nAmount)];
          nBudgetAllocated' := nBudgetAllocated + p.terms.nAmount;
          ret' := ret + [k];
        } else {
          mapProposals := mapProposals[k := p.(nAlloted := 0)];
        }
      }
    }

    /** The payments that SubmitFinalBudget makes of the proposals returned. */
    method BudgetPayments(ret: seq<Hash256>) returns (payments: seq<Payment>)
      requires forall i :: 0 <= i < |ret| ==> ret[i] in mapProposals
      ensures payments == PaymentsFor(h, mapProposals, ret)
    {
      payments := [];
      assert ret[..0] == [];
      for i := 0 to |ret|
        invariant payments == PaymentsFor(h, mapProposals, ret[..i])
      {
        assert ret[..i + 1][..i] == ret[..i];
        var p := mapProposals[ret[i]];
        payments := payments + [Payment(h.terms(p.terms), p.terms.address, p.nAlloted)];
      }
      assert ret[..|ret|] == ret;
    }

    method TotalPayout(f: Finalized) returns (ret: int)
      ensures ret == Total(f.vecBudgetPayments)
    {
      ret := 0;
      var v := f.vecBudgetPayments;
      assert v[..0] == [];
      for i := 0 to |v|
        invariant ret == Total(v[..i])
      {
        assert v[..i + 1][..i] == v[..i];
        ret := ret + v[i].nAmount;
      }
      assert v[..|v|] == v;
    }

    /** CFinalizedBudget::IsValid */
    method FinalizedIsValid(env: Env, f: Finalized) returns (ok: bool)
      ensures ok <==> FinalizedValid(h, env, Abs(), f)
    {
      hide HasVeto, Total;
      if f.nBlockStart % env.Cycle() != 0 { return false; }
      if f.BlockEnd() - f.nBlockStart > 100 { return false; }
      if |f.vecBudgetPayments| > 100 { return false; }
      if f.strBudgetName == "" { return false; }
      if f.nBlockStart == 0 { return false; }
      if f.nFeeTXHash == 0 { return false; }
      var payout := TotalPayout(f);
      if payout > env.TotalBudget(f.nBlockStart) { return false; }
      if !env.collateralOk(f.nFeeTXHash, h.finalized(f.strBudgetName, f.nBlockStart, f.vecBudgetPayments)) { return false; }
      for i := 0 to |f.vecBudgetPayments|
        invariant forall k :: 0 <= k < i ==> !IsVetoed(env, Abs(), f.vecBudgetPayments[k].nProposalHash, f.nBlockStart + k)
      {
        var vetoed := IsVetoedAt(env, f.vecBudgetPayments[i].nProposalHash, f.nBlockStart + i);
        if vetoed { return false; }
      }
      return true;
    }

    /** AutoCheck's comparison with what GetBudget returned. */
    method MatchesBudget(ret: seq<Hash256>, f: Finalized) returns (r: bool)
      requires forall i :: 0 <= i < |ret| ==> ret[i] in mapProposals
      ensures r <==> Matches(h, mapProposals, ret, f)
    {
      if |ret| == 0 || |ret| != |f.vecBudgetPayments| {
        return false;
      }
      for i := 0 to |f.vecBudgetPayments|
        invariant forall k :: 0 <= k < i ==> (var p := mapProposals[ret[k]];
          f.vecBudgetPayments[k] == Payment(h.terms(p.terms), p.terms.address, p.terms.nAmount))
      {
        var p, q := mapProposals[ret[i]], f.vecBudgetPayments[i];
        if q.nProposalHash != h.terms(p.terms) { return false; }
        if q.payee != p.terms.address { return false; }
        if q.nAmount != p.terms.nAmount { return false; }
      }
      return true;
    }

    // ----- FillBlockPayee -----

    /** The loop over the finalized budgets: its last choice, with the payment that comes with it. */
    method HighestCount(env: Env, nBlockHeight: int, order: seq<Hash256>) returns (ghost best: Option<Hash256>, payment: Option<Payment>)
      requires Listed(mapFinalizedBudgets, order)
      ensures IsBest(env, Abs(), nBlockHeight, order, |order|, best)
      ensures best.Some? ==> best.value in mapFinalizedBudgets
      ensures payment == if best.None? then None else mapFinalizedBudgets[best.value].PaymentAt(nBlockHeight)
      ensures best.Some? ==> payment.Some?
    {
      hide HasVeto, IsBest, Payable;
      best, payment := None, None;
      NoneIsBest(env, Abs(), nBlockHeight, order);
      var nHighestCount := 0;
      for i := 0 to |order|
        invariant IsBest(env, Abs(), nBlockHeight, order, i, best)
        invariant best.Some? ==> best.value in mapFinalizedBudgets
        invariant nHighestCount == if best.None? then 0 else mapFinalizedBudgets[best.value].VoteCount()
        invariant payment == if best.None? then None else mapFinalizedBudgets[best.value].PaymentAt(nBlockHeight)
        invariant best.Some? ==> payment.Some?
      {
        assert order[i] in order;
        var f := mapFinalizedBudgets[order[i]];
        var vetoed := FinalizedBudgetPaymentVetoed(env, f, nBlockHeight);
        BestMoves(env, Abs(), nBlockHeight, order, i, best);
        if f.VoteCount() > nHighestCount && f.fValid && nBlockHeight >= f.nBlockStart && nBlockHeight <= f.BlockEnd() && !vetoed {
          var q := f.PaymentAt(nBlockHeight);
          nHighestCount := f.VoteCount();
          payment := q;
          best := Some(order[i]);
        }
      }
    }

    /** What a block pays: the payment of the payable budget with the most votes, if there is one. */
    method FillBlockPayee(env: Env, order: seq<Hash256>, vout: seq<TxOut>, fProofOfStake: bool) returns (vout': seq<TxOut>, ghost best: Option<Hash256>)
      requires Listed(mapFinalizedBudgets, order) && (!fProofOfStake ==> |vout| > 0)
      ensures env.tip.None? ==> vout' == vout
      ensures env.tip.Some? ==> IsBest(env, Abs(), env.tip.value + 1, order, |order|, best)
      ensures best.Some? ==> best.value in mapFinalizedBudgets
      ensures env.tip.Some? ==> (
        var due := if best.None? then None else mapFinalizedBudgets[best.value].PaymentAt(env.tip.value + 1);
        vout' == Paid(vout, env.blockValue(env.tip.value), fProofOfStake, due))
      ensures env.tip.Some? && best.Some? ==> (
        var f := mapFinalizedBudgets[best.value];
        f.PaymentAt(env.tip.value + 1).Some? && !PaymentVetoed(env, Abs(), f, env.tip.value + 1) && Contains(vout', f.PaymentAt(env.tip.value + 1).value))
    {
      hide HasVeto, Contains;
      vout' := vout;
      best := None;
      if env.tip.None? {
        return;
      }
      var payment;
      best, payment := HighestCount(env, env.tip.value + 1, order);
      PaidOutputs(vout, env.blockValue(env.tip.value), fProofOfStake, payment);
      if fProofOfStake {
        if payment.Some? {
          vout' := vout' + [TxOut(payment.value.nAmount, payment.value.payee)];
        }
      } else {
        vout' := vout'[0 := vout'[0].(nValue := env.blockValue(env.tip.value))];
        if payment.Some? {
          vout' := [vout'[0], TxOut(payment.value.nAmount, payment.value.payee)];
        } else {
          assert vout' == [vout'[0]] + vout[1..];
        }
      }
    }

    /** Whether a block is one for a budget payment: some payable budget has more votes than five percent. */
    method IsBudgetPaymentBlock(env: Env, nBlockHeight: int, order: seq<Hash256>) returns (r: bool)
      requires Listed(mapFinalizedBudgets, order)
      ensures r <==> exists k :: k in mapFinalizedBudgets && Supported(env, Abs(), mapFinalizedBudgets[k], nBlockHeight)
    {
      hide HasVeto;
      var nHighestCount := -1;
      ghost var best := None;
      for i := 0 to |order|
        invariant nHighestCount >= -1
        invariant forall k :: 0 <= k < i && order[k] in mapFinalizedBudgets && Payable(env, Abs(), mapFinalizedBudgets[order[k]], nBlockHeight) ==>
          mapFinalizedBudgets[order[k]].VoteCount() <= nHighestCount
        invariant nHighestCount >= 0 ==> best.Some? && best.value in mapFinalizedBudgets
        invariant nHighestCount >= 0 ==> Payable(env, Abs(), mapFinalizedBudgets[best.value], nBlockHeight)
        invariant nHighestCount >= 0 ==> mapFinalizedBudgets[best.value].VoteCount() == nHighestCount
      {
        assert order[i] in order;
        var f := mapFinalizedBudgets[order[i]];
        var vetoed := FinalizedBudgetPaymentVetoed(env, f, nBlockHeight);
        if f.VoteCount() > nHighestCount && f.fValid && nBlockHeight >= f.nBlockStart && nBlockHeight <= f.BlockEnd() && !vetoed {
          nHighestCount := f.VoteCount();
          best := Some(order[i]);
        }
      }
      r := nHighestCount > env.nEnabled / 20;
      if !r {
        forall k | k in mapFinalizedBudgets && Payable(env, Abs(), mapFinalizedBudgets[k], nBlockHeight)
          ensures mapFinalizedBudgets[k].VoteCount() <= env.nEnabled / 20
        {
          assert k in order;
        }
      }
    }

    /** CFinalizedBudget::IsTransactionValid: the payment due is among the outputs, and not vetoed. */
    method IsTransactionValid(env: Env, f: Finalized, vout: seq<TxOut>, nBlockHeight: int) returns (found: bool)
      ensures found <==> f.PaymentAt(nBlockHeight).Some? && !PaymentVetoed(env, Abs(), f, nBlockHeight) && Contains(vout, f.PaymentAt(nBlockHeight).value)
    {
      var n := nBlockHeight - f.nBlockStart;
      if n < 0 { return false; }
      if n > |f.vecBudgetPayments| - 1 { return false; }
      var due := f.vecBudgetPayments[n];
      var vetoed := IsVetoedAt(env, due.nProposalHash, nBlockHeight);
      if vetoed { return false; }
      found := false;
      for i := 0 to |vout|
        invariant found <==> exists k :: 0 <= k < i && vout[k].scriptPubKey == due.payee && vout[k].nValue == due.nAmount
      {
        if due.payee == vout[i].scriptPubKey && due.nAmount == vout[i].nValue {
          found := true;
        }
      }
    }
  }
}
