/** What the budget's rules amount to: votes, which proposals count, what is stored, and what GetBudget leaves behind. */
module BudgetRules {
  import opened Arith
  import opened Coins
  import opened Prelude
  import opened Budget

  // ----- Votes -----

  /** What a vote adds to the balance of its proposal. */
  function Weight(v: Vote): int {
    if !v.fValid then 0 else if v.nVote == VOTE_YES then 1 else if v.nVote == VOTE_NO then -1 else 0
  }

  ghost function Voters(votes: map<Hash256, Vote>, nVote: int): set<Hash256> {
    set k | k in votes && votes[k].nVote == nVote && votes[k].fValid
  }

  lemma VotersMove(votes: map<Hash256, Vote>, voter: Hash256, v: Vote, nVote: int)
    ensures |Voters(votes[voter := v], nVote)| == |Voters(votes, nVote)|
      - (if voter in Voters(votes, nVote) then 1 else 0) + if v.nVote == nVote && v.fValid then 1 else 0
  {
    hide Voters;
    OthersStay(votes, voter, v, nVote);
    OneOrNone(Voters(votes, nVote), voter);
    OneOrNone(Voters(votes[voter := v], nVote), voter);
  }

  lemma OthersStay(votes: map<Hash256, Vote>, voter: Hash256, v: Vote, nVote: int)
    ensures Voters(votes[voter := v], nVote) - {voter} == Voters(votes, nVote) - {voter}
    ensures voter in Voters(votes[voter := v], nVote) <==> v.nVote == nVote && v.fValid
  {}

  lemma OneOrNone(s: set<Hash256>, x: Hash256)
    ensures |s| == |s - {x}| + if x in s then 1 else 0
  {
    assert s == (s - {x}) + if x in s then {x} else {};
  }

  /** A vote moves the balance by its own weight, less that of the voter's last one. */
  lemma VoteMovesNet(p: Proposal, voter: Hash256, v: Vote)
    ensures p.(mapVotes := p.mapVotes[voter := v]).Net() ==
      p.Net() + Weight(v) - if voter in p.mapVotes then Weight(p.mapVotes[voter]) else 0
  {
    hide Voters;
    NetIs(p);
    NetIs(p.(mapVotes := p.mapVotes[voter := v]));
    VotersMove(p.mapVotes, voter, v, VOTE_YES);
    VotersMove(p.mapVotes, voter, v, VOTE_NO);
    VoterOf(p.mapVotes, voter);
  }

  lemma NetIs(p: Proposal)
    ensures p.Net() == |Voters(p.mapVotes, VOTE_YES)| - |Voters(p.mapVotes, VOTE_NO)|
  {
    assert Voters(p.mapVotes, VOTE_YES) == set k | k in p.mapVotes && p.mapVotes[k].nVote == VOTE_YES && p.mapVotes[k].fValid;
    assert Voters(p.mapVotes, VOTE_NO) == set k | k in p.mapVotes && p.mapVotes[k].nVote == VOTE_NO && p.mapVotes[k].fValid;
  }

  lemma VoterOf(votes: map<Hash256, Vote>, voter: Hash256)
    ensures forall nVote :: voter in Voters(votes, nVote) <==> voter in votes && votes[voter].nVote == nVote && votes[voter].fValid
  {}

  /** After a cleaning the balance counts the votes of masternodes that are still in order, whatever was marked before. */
  lemma CleanedNet(env: Env, p: Proposal)
    ensures p.(mapVotes := CleanVotes(env, p.mapVotes)).Net() ==
      |set k | k in p.mapVotes && p.mapVotes[k].nVote == VOTE_YES && env.voteOk(k, p.mapVotes[k])|
      - |set k | k in p.mapVotes && p.mapVotes[k].nVote == VOTE_NO && env.voteOk(k, p.mapVotes[k])|
  {
    var c := CleanVotes(env, p.mapVotes);
    NetIs(p.(mapVotes := c));
    assert Voters(c, VOTE_YES) == set k | k in p.mapVotes && p.mapVotes[k].nVote == VOTE_YES && env.voteOk(k, p.mapVotes[k]);
    assert Voters(c, VOTE_NO) == set k | k in p.mapVotes && p.mapVotes[k].nVote == VOTE_NO && env.voteOk(k, p.mapVotes[k]);
  }

  /** A vote in time: an hour or more after the voter's last one, and at most an hour from the future. */
  predicate InTime(env: Env, votes: map<Hash256, Vote>, voter: Hash256, v: Vote) {
    (voter in votes ==> votes[voter].nTime + 3600 <= v.nTime) && v.nTime <= env.now + 3600
  }

  /** Exactly a vote in time replaces the voter's last one; the others stay. */
  lemma VotesInTime(env: Env, votes: map<Hash256, Vote>, voter: Hash256, v: Vote, other: Hash256)
    ensures var r := VotesAfter(env, votes, voter, v);
      && (InTime(env, votes, voter, v) ==> voter in r && r[voter] == v)
      && (other != voter || !InTime(env, votes, voter, v) ==> (other in r <==> other in votes) && (other in r ==> r[other] == votes[other]))
  {}

  /** A vote in time on a known proposal moves its balance by the vote's weight, less that of the voter's last one; no other moves. */
  lemma VoteReachesProposal(env: Env, s: State, key: Hash256, voter: Hash256, v: Vote, other: Hash256)
    ensures var t := VoteProposal(env, s, key, voter, v);
      && t == s.(mapProposals := t.mapProposals) && (other in t.mapProposals <==> other in s.mapProposals)
      && (other in s.mapProposals ==> (
            var p := s.mapProposals[other];
            && t.mapProposals[other] == p.(mapVotes := t.mapProposals[other].mapVotes)
            && t.mapProposals[other].Net() == p.Net() +
                 if other == key && InTime(env, p.mapVotes, voter, v)
                 then Weight(v) - if voter in p.mapVotes then Weight(p.mapVotes[voter]) else 0
                 else 0))
  {
    hide Proposal.Net, Weight;
    if key in s.mapProposals { VoteMovesNet(s.mapProposals[key], voter, v); }
  }

  /** A vote in time on a known finalized budget adds one to its count if the voter had none; no other count moves. */
  lemma VoteReachesFinalized(env: Env, s: State, key: Hash256, voter: Hash256, v: Vote, other: Hash256)
    ensures var t := VoteFinalized(env, s, key, voter, v);
      && t == s.(mapFinalizedBudgets := t.mapFinalizedBudgets) && (other in t.mapFinalizedBudgets <==> other in s.mapFinalizedBudgets)
      && (other in s.mapFinalizedBudgets ==> (
            var f := s.mapFinalizedBudgets[other];
            && t.mapFinalizedBudgets[other] == f.(mapVotes := t.mapFinalizedBudgets[other].mapVotes)
            && t.mapFinalizedBudgets[other].VoteCount() == f.VoteCount() +
                 if other == key && voter !in f.mapVotes && InTime(env, f.mapVotes, voter, v) then 1 else 0))
  {
    if key in s.mapFinalizedBudgets { OneMoreVoter(s.mapFinalizedBudgets[key].mapVotes, voter, v); }
  }

  lemma OneMoreVoter(votes: map<Hash256, Vote>, voter: Hash256, v: Vote)
    ensures |votes[voter := v]| == |votes| + if voter in votes then 0 else 1
  {
    assert votes[voter := v].Keys == votes.Keys + {voter};
    OneOrNone(votes.Keys + {voter}, voter);
    OneOrNone(votes.Keys, voter);
    assert votes.Keys + {voter} - {voter} == votes.Keys - {voter};
  }

  /** Marking the valid vetoes synchronised, and taking the mark off again, changes nothing else. */
  lemma SyncMarks(s: State, k: Hash256)
    ensures var m, r := MarkSynced(s), ResetSync(s);
      && m == s.(mapSeenVetoVotes := m.mapSeenVetoVotes) && r == s.(mapSeenVetoVotes := r.mapSeenVetoVotes)
      && (k in m.mapSeenVetoVotes <==> k in s.mapSeenVetoVotes) && (k in r.mapSeenVetoVotes <==> k in s.mapSeenVetoVotes)
      && (k in s.mapSeenVetoVotes ==>
           && SameVeto(s.mapSeenVetoVotes[k], m.mapSeenVetoVotes[k]) && SameVeto(s.mapSeenVetoVotes[k], r.mapSeenVetoVotes[k])
           && (m.mapSeenVetoVotes[k].fSynced <==> s.mapSeenVetoVotes[k].fValid || s.mapSeenVetoVotes[k].fSynced)
           && !r.mapSeenVetoVotes[k].fSynced)
  {}

  // ----- Which proposals count -----

  predicate Covers(p: Proposal, nBlockHeight: int) {
    p.terms.nBlockStart <= nBlockHeight <= p.terms.nBlockEnd
  }

  /** A proposal for every block of the next cycle, with more than a tenth of the masternodes for it, and old enough. */
  lemma EligibleMeans(h: Hashes, env: Env, s: State, p: Proposal, nBlockStart: int)
    ensures Eligible(h, env, s, p, nBlockStart) <==>
      && p.fValid && !IsVetoed(env, s, h.terms(p.terms), nBlockStart)
      && (forall x :: nBlockStart <= x < nBlockStart + env.Cycle() ==> Covers(p, x))
      && 10 * p.Net() > env.nEnabled
      && p.nTime + (if env.fMain then 86400 else 300) < env.now
  {
    hide IsVetoed, Proposal.Net;
    var last := nBlockStart + env.Cycle() - 1;
    assert env.Cycle() > 0;
    assert Covers(p, nBlockStart) && Covers(p, last) <==> p.terms.nBlockStart <= nBlockStart && p.terms.nBlockEnd >= last;
  }

  /** The block of a proposal's last payment, if it starts n cycles after its first one. */
  predicate LastCycle(env: Env, p: Proposal, n: int) {
    var c := env.Cycle();
    var first := p.terms.nBlockStart - p.terms.nBlockStart % c;
    first + n * c <= p.terms.nBlockEnd < first + (n + 1) * c
  }

  /** What a proposal has to satisfy, but for its end. */
  ghost predicate InOrder(h: Hashes, env: Env, s: State, p: Proposal) {
    var t := p.terms;
    && !IsVetoed(env, s, h.terms(t), env.TipHeight())
    && -10 * p.Net() <= env.nEnabled
    && (env.TipHeight() >= env.vetoForkHeight || !env.sporkVeto(t))
    && 0 <= t.nBlockStart <= t.nBlockEnd && t.address != [] && !IsPayToScriptHash(t.address)
    && env.collateralOk(p.nFeeTXHash, h.terms(t))
    && 10_0000_0000 <= t.nAmount <= env.TotalBudget(t.nBlockStart)
  }

  /** A proposal is valid exactly if it is in order and the tip is not past its last cycle. */
  lemma ValidUntilLastCycle(h: Hashes, env: Env, s: State, p: Proposal, n: int)
    requires LastCycle(env, p, n)
    ensures ProposalValid(h, env, s, p) <==> InOrder(h, env, s, p) && (env.tip.Some? ==> env.tip.value <= p.terms.nBlockStart + n * env.Cycle())
  {
    hide IsVetoed, Proposal.Net, IsPayToScriptHash, Env.TotalBudget;
    var c, t := env.Cycle(), p.terms;
    assert c > 0;
    var span := t.nBlockEnd - (t.nBlockStart - t.nBlockStart % c);
    MulAdd(n, 1, c);
    DivideUnique(span, c, n);
    assert n * c == c * n;
  }

  lemma PayToScriptHashIs(s: Script)
    ensures IsPayToScriptHash(s) <==> exists hash: Script :: |hash| == 20 && s == [0xa9, 0x14] + hash + [0x87]
  {
    if IsPayToScriptHash(s) {
      var hash := s[2..22];
      assert |hash| == 20 && s == [0xa9, 0x14] + hash + [0x87];
    }
  }

  /**
    Two percent of the block values of a cycle, ten from the fork height on, up to rounding each block's value to
    hundreds; nothing without a tip.
    */
  lemma TotalBudgetIsShare(env: Env, nHeight: int)
    ensures env.tip.None? ==> env.TotalBudget(nHeight) == 0
    ensures env.tip.Some? ==> var pct := if nHeight < env.stakePointerForkHeight then 2 else 10;
      env.blockValue(nHeight) * pct * env.Cycle() - 100 * pct * env.Cycle() < 100 * env.TotalBudget(nHeight) <= env.blockValue(nHeight) * pct * env.Cycle()
  {
    var v, pct := env.blockValue(nHeight), if nHeight < env.stakePointerForkHeight then 2 else 10;
    var k := pct * env.Cycle();
    DivideSplits(v, 100);
    MulAssociate(v / 100, pct, env.Cycle());
    MulAssociate(v, pct, env.Cycle());
    MulMonotone(100 * (v / 100), v, k);
    MulMonotone(v + 1, 100 * (v / 100) + 100, k);
    MulAssociate(100, v / 100, k);
    MulAdd(v, 1, k);
    MulAdd(100 * (v / 100), 100, k);
  }

  /** A finalized budget has a payment for each of its blocks, and for no other. */
  lemma PaymentForEachBlock(f: Finalized, nBlockHeight: int)
    ensures f.PaymentAt(nBlockHeight).Some? <==> f.nBlockStart <= nBlockHeight <= f.BlockEnd()
    ensures forall i :: 0 <= i < |f.vecBudgetPayments| ==> f.PaymentAt(f.nBlockStart + i) == Some(f.vecBudgetPayments[i])
  {}

  // ----- What GetBudget leaves behind -----

  /** What the loop allots: to an eligible proposal what it asks for if it is returned and else nothing; others are left alone. */
  lemma {:induction false} AllottedAmounts(h: Hashes, env: Env, s: State, m: map<Hash256, Proposal>, order: seq<Hash256>, n: nat, j: nat)
    requires env.tip.Some? && j < n <= |order| && (forall i :: 0 <= i < |order| ==> order[i] in m)
    requires forall i, j :: 0 <= i < j < |order| ==> order[i] != order[j]
    ensures var a := Allotted(h, env, s, m, order, n);
      a.m[order[j]].nAlloted == if !Eligible(h, env, s, m[order[j]], env.NextStart()) then m[order[j]].nAlloted
        else if order[j] in a.ret then m[order[j]].terms.nAmount else 0
  {
    hide Eligible, Env.TotalBudget, Env.NextStart, AllotStep, AllottedOk;
    LoopKeepsAllotted(h, env, s, m, order, n - 1);
    var a := Allotted(h, env, s, m, order, n - 1);
    StepReturns(h, env, s, a, order[n - 1], env.NextStart(), order[j]);
    if j < n - 1 {
      AllottedAmounts(h, env, s, m, order, n - 1, j);
      StepAllotsOne(h, env, s, a, order[n - 1], env.NextStart(), order[j]);
    } else {
      UntilReached(h, env, s, m, order, j, j);
      NotYet(h, env, s, m, order, j, a);
      StepAllots(h, env, s, m, a, order[j], env.NextStart());
    }
  }

  lemma StepAllotsOne(h: Hashes, env: Env, s: State, a: Allotment, k: Hash256, nBlockStart: int, x: Hash256)
    requires k in a.m && x in a.m && x != k
    ensures x in AllotStep(h, env, s, a, k, nBlockStart).m && AllotStep(h, env, s, a, k, nBlockStart).m[x] == a.m[x]
  {}

  /** Before its turn a proposal is as it was. */
  lemma {:induction false} UntilReached(h: Hashes, env: Env, s: State, m: map<Hash256, Proposal>, order: seq<Hash256>, n: nat, j: nat)
    requires env.tip.Some? && n <= j < |order| && (forall i :: 0 <= i < |order| ==> order[i] in m)
    requires forall i, j :: 0 <= i < j < |order| ==> order[i] != order[j]
    ensures order[j] in Allotted(h, env, s, m, order, n).m && Allotted(h, env, s, m, order, n).m[order[j]] == m[order[j]]
  {
    hide AllotStep, Env.NextStart;
    if n > 0 {
      UntilReached(h, env, s, m, order, n - 1, j);
      StepAllotsOne(h, env, s, Allotted(h, env, s, m, order, n - 1), order[n - 1], env.NextStart(), order[j]);
    }
  }

  lemma NotYet(h: Hashes, env: Env, s: State, m: map<Hash256, Proposal>, order: seq<Hash256>, j: nat, a: Allotment)
    requires env.tip.Some? && j < |order| && (forall i :: 0 <= i < |order| ==> order[i] in m)
    requires (forall i, j :: 0 <= i < j < |order| ==> order[i] != order[j]) && AllottedOk(h, env, s, m, order, j, a)
    ensures order[j] !in a.ret
  {
    hide Eligible, Env.TotalBudget, Env.NextStart, SameButAllotted, SumAlloted;
    NotReturnedBefore(m, order, j, a);
  }

  lemma StepAllots(h: Hashes, env: Env, s: State, m: map<Hash256, Proposal>, a: Allotment, k: Hash256, nBlockStart: int)
    requires k in m && k in a.m && a.m[k] == m[k] && k !in a.ret
    ensures var a' := AllotStep(h, env, s, a, k, nBlockStart);
      a'.m[k].nAlloted == if !Eligible(h, env, s, m[k], nBlockStart) then m[k].nAlloted else if k in a'.ret then m[k].terms.nAmount else 0
  {
    hide Eligible, Env.TotalBudget;
  }

  /** GetBudget keeps every proposal, with its votes marked anew and its allotment set, and touches nothing else. */
  lemma BudgetTouches(h: Hashes, env: Env, s: State, order: seq<Hash256>, k: Hash256)
    requires Ranked(CleanedProposals(env, s.mapProposals), order)
    ensures var (t, ret) := GetBudget(h, env, s, order);
      && t == s.(mapProposals := t.mapProposals) && (env.tip.None? ==> ret == [])
      && (k in t.mapProposals <==> k in s.mapProposals)
      && (k in s.mapProposals ==>
           var p := s.mapProposals[k].(mapVotes := CleanVotes(env, s.mapProposals[k].mapVotes));
           t.mapProposals[k] == p.(nAlloted :=
             if env.tip.None? || !Eligible(h, env, s, p, env.NextStart()) then p.nAlloted else if k in ret then p.terms.nAmount else 0))
  {
    hide Eligible, Env.NextStart, Allotted, AllottedOk, CleanVotes;
    var m := CleanedProposals(env, s.mapProposals);
    if env.tip.Some? {
      RankedMembers(m, order);
      LoopKeepsAllotted(h, env, s, m, order, |order|);
      OnlyAllotted(h, env, s, m, order);
      if k in s.mapProposals {
        var j := PlaceOf(m, order, k);
        AllottedAmounts(h, env, s, m, order, |order|, j);
      }
    }
  }

  lemma PlaceOf(m: map<Hash256, Proposal>, order: seq<Hash256>, k: Hash256) returns (j: nat)
    requires Ranked(m, order) && k in m
    ensures j < |order| && order[j] == k
  {
    hide Before;
    assert k in order;
    j :| j < |order| && order[j] == k;
  }

  lemma OnlyAllotted(h: Hashes, env: Env, s: State, m: map<Hash256, Proposal>, order: seq<Hash256>)
    requires env.tip.Some? && (forall i :: 0 <= i < |order| ==> order[i] in m) && AllottedOk(h, env, s, m, order, |order|, Allotted(h, env, s, m, order, |order|))
    ensures var a := Allotted(h, env, s, m, order, |order|);
      a.m.Keys == m.Keys && forall k :: k in m ==> a.m[k] == m[k].(nAlloted := a.m[k].nAlloted)
  {
    hide Eligible, Allotted, SumAlloted, Env.NextStart;
    var a := Allotted(h, env, s, m, order, |order|);
    forall k | k in m ensures a.m[k] == m[k].(nAlloted := a.m[k].nAlloted) { assert SameButAllotted(m[k], a.m[k]); }
  }

  /** After CheckAndRemove every mark of validity is up to date; nothing else has changed. */
  lemma RecheckedIsCurrent(h: Hashes, env: Env, s: State, k: Hash256)
    ensures var t := Rechecked(h, env, s);
      && t == s.(mapProposals := t.mapProposals, mapFinalizedBudgets := t.mapFinalizedBudgets)
      && (k in t.mapProposals <==> k in s.mapProposals) && (k in t.mapFinalizedBudgets <==> k in s.mapFinalizedBudgets)
      && (k in s.mapProposals ==>
           t.mapProposals[k] == s.mapProposals[k].(fValid := t.mapProposals[k].fValid) && (t.mapProposals[k].fValid <==> ProposalValid(h, env, t, t.mapProposals[k])))
      && (k in s.mapFinalizedBudgets ==>
           t.mapFinalizedBudgets[k] == s.mapFinalizedBudgets[k].(fValid := t.mapFinalizedBudgets[k].fValid)
           && (t.mapFinalizedBudgets[k].fValid <==> FinalizedValid(h, env, t, t.mapFinalizedBudgets[k])))
  {
    hide ProposalValid, FinalizedValid;
    var t := Rechecked(h, env, s);
    if k in s.mapProposals { SameProposalValid(h, env, s, t, s.mapProposals[k], t.mapProposals[k].fValid); }
    if k in s.mapFinalizedBudgets { SameFinalizedValid(h, env, s, t, s.mapFinalizedBudgets[k], t.mapFinalizedBudgets[k].fValid); }
  }

  /** Validity depends on the vetoes of a state only, and not on the old mark. */
  lemma SameProposalValid(h: Hashes, env: Env, s: State, t: State, p: Proposal, b: bool)
    requires s.mapSeenVetoVotes == t.mapSeenVetoVotes
    ensures ProposalValid(h, env, s, p) == ProposalValid(h, env, t, p.(fValid := b))
  {
    hide HasVeto, Env.TotalBudget;
    SameVetoes(s, t, h.terms(p.terms));
    assert p.(fValid := b).Net() == p.Net();
  }

  lemma SameFinalizedValid(h: Hashes, env: Env, s: State, t: State, f: Finalized, b: bool)
    requires s.mapSeenVetoVotes == t.mapSeenVetoVotes
    ensures FinalizedValid(h, env, s, f) == FinalizedValid(h, env, t, f.(fValid := b))
  {
    hide HasVeto, Env.TotalBudget, Total;
    forall x ensures HasVeto(s, x) == HasVeto(t, x) { SameVetoes(s, t, x); }
  }

  // ----- What is stored -----

  /** Exactly a valid proposal that is not known is stored, under its hash. */
  lemma OnlyValidProposals(h: Hashes, env: Env, s: State, p: Proposal)
    ensures var t := AddProposal(h, env, s, p); var key := h.terms(p.terms);
      if ProposalValid(h, env, s, p) && key !in s.mapProposals then t == s.(mapProposals := s.mapProposals[key := p]) else t == s
  {
    hide ProposalValid;
  }

  /** Exactly a valid finalized budget that is not known is stored, under its hash. */
  lemma OnlyValidFinalized(h: Hashes, env: Env, s: State, f: Finalized)
    ensures var t := AddFinalized(h, env, s, f); var key := h.finalized(f.strBudgetName, f.nBlockStart, f.vecBudgetPayments);
      if FinalizedValid(h, env, s, f) && key !in s.mapFinalizedBudgets
      then t == s.(mapFinalizedBudgets := s.mapFinalizedBudgets[key := f]) else t == s
  {
    hide FinalizedValid;
  }

  /** Some step of a run brought a proposal on these terms, and it was valid then. */
  ghost predicate CameValid(h: Hashes, ops: seq<Op>, k: Hash256, t: Terms) {
    exists i :: 0 <= i < |ops| && ProposedAt(h, ops, i, k, t)
  }

  ghost predicate ProposedAt(h: Hashes, ops: seq<Op>, i: nat, k: Hash256, t: Terms)
    requires i < |ops|
  {
    Proposes(h, Run(h, Empty, ops[..i]), ops[i], k, t)
  }

  ghost predicate FinalizedCameValid(h: Hashes, ops: seq<Op>, k: Hash256, f: Finalized) {
    exists i :: 0 <= i < |ops| && FinalizedAt(h, ops, i, k, f)
  }

  ghost predicate FinalizedAt(h: Hashes, ops: seq<Op>, i: nat, k: Hash256, f: Finalized)
    requires i < |ops|
  {
    Finalizes(h, Run(h, Empty, ops[..i]), ops[i], k, f)
  }

  /** Up to votes and the mark of validity. */
  predicate SameBudget(f: Finalized, g: Finalized) {
    g == f.(mapVotes := g.mapVotes, fValid := g.fValid)
  }

  /** This step brings a proposal on these terms, and it is valid. */
  ghost predicate Proposes(h: Hashes, s: State, op: Op, k: Hash256, t: Terms) {
    op.AddProposalOp? && op.p.terms == t && h.terms(t) == k && ProposalValid(h, op.env, s, op.p)
  }

  ghost predicate Finalizes(h: Hashes, s: State, op: Op, k: Hash256, f: Finalized) {
    && op.AddFinalizedOp? && SameBudget(op.f, f) && h.finalized(f.strBudgetName, f.nBlockStart, f.vecBudgetPayments) == k
    && FinalizedValid(h, op.env, s, op.f)
  }

  /** What is stored after a step was stored before, or this step brings it. */
  lemma StepStores(h: Hashes, s: State, op: Op, k: Hash256)
    ensures var t := Step(h, s, op).mapProposals;
      k in t ==> (k in s.mapProposals && s.mapProposals[k].terms == t[k].terms) || Proposes(h, s, op, k, t[k].terms)
    ensures var t := Step(h, s, op).mapFinalizedBudgets;
      k in t ==> (k in s.mapFinalizedBudgets && SameBudget(s.mapFinalizedBudgets[k], t[k])) || Finalizes(h, s, op, k, t[k])
  {
    hide ProposalValid, FinalizedValid, HasVeto, GetBudget, Eligible, Ranked, VotesAfter;
    if op.GetBudgetOp? && Ranked(CleanedProposals(op.env, s.mapProposals), op.order) {
      BudgetTouches(h, op.env, s, op.order, k);
    }
  }

  /** In every state reached, each stored proposal and each finalized budget has the hash it is stored under, and was valid when it came. */
  lemma {:induction false} StoredCameValid(h: Hashes, ops: seq<Op>, k: Hash256)
    ensures k in Run(h, Empty, ops).mapProposals ==> CameValid(h, ops, k, Run(h, Empty, ops).mapProposals[k].terms)
    ensures k in Run(h, Empty, ops).mapFinalizedBudgets ==> FinalizedCameValid(h, ops, k, Run(h, Empty, ops).mapFinalizedBudgets[k])
  {
    hide Step, ProposalValid, FinalizedValid;
    if ops != [] {
      var n := |ops| - 1;
      var s, t := Run(h, Empty, ops[..n]), Run(h, Empty, ops);
      StoredCameValid(h, ops[..n], k);
      StepStores(h, s, ops[n], k);
      forall i | 0 <= i < n ensures ops[..n][..i] == ops[..i] {}
      if k in t.mapProposals {
        if k in s.mapProposals && s.mapProposals[k].terms == t.mapProposals[k].terms {
          var i :| 0 <= i < n && ProposedAt(h, ops[..n], i, k, t.mapProposals[k].terms);
          assert ProposedAt(h, ops, i, k, t.mapProposals[k].terms);
        } else {
          assert ProposedAt(h, ops, n, k, t.mapProposals[k].terms);
        }
      }
      if k in t.mapFinalizedBudgets {
        if k in s.mapFinalizedBudgets && SameBudget(s.mapFinalizedBudgets[k], t.mapFinalizedBudgets[k]) {
          var i :| 0 <= i < n && FinalizedAt(h, ops[..n], i, k, s.mapFinalizedBudgets[k]);
          assert FinalizedAt(h, ops, i, k, t.mapFinalizedBudgets[k]);
        } else {
          assert FinalizedAt(h, ops, n, k, t.mapFinalizedBudgets[k]);
        }
      }
    }
  }
}
