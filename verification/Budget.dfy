/** masternode-budget.cpp: proposals, the budget allotted to them, finalized budgets and permanent vetoes, as values. */
module Budget {
  import opened Coins
  import opened Prelude

  const COIN := 1_0000_0000
  const VOTE_YES := 1
  const VOTE_NO := 2
  const BUDGET_VOTE_UPDATE_MIN := 60 * 60

  datatype Vote = Vote(nVote: int, nTime: int, fValid: bool)

  /** The fields of a proposal that its hash covers. */
  datatype Terms = Terms(strProposalName: string, strURL: string, nBlockStart: int, nBlockEnd: int, nAmount: int, address: Script)

  datatype Proposal = Proposal(terms: Terms, nTime: int, nFeeTXHash: Hash256, mapVotes: map<Hash256, Vote>, fValid: bool, nAlloted: int) {
    function Count(nVote: int): nat {
      |set k | k in mapVotes && mapVotes[k].nVote == nVote && mapVotes[k].fValid|
    }

    function Net(): int { Count(VOTE_YES) - Count(VOTE_NO) }
  }

  datatype Payment = Payment(nProposalHash: Hash256, payee: Script, nAmount: int)

  datatype Finalized = Finalized(strBudgetName: string, nBlockStart: int, vecBudgetPayments: seq<Payment>,
                                 mapVotes: map<Hash256, Vote>, nFeeTXHash: Hash256, fValid: bool)
  {
    function BlockEnd(): int { nBlockStart + |vecBudgetPayments| - 1 }

    function VoteCount(): nat { |mapVotes| }

    /** The payment due at a height. */
    function PaymentAt(nBlockHeight: int): Option<Payment> {
      var i := nBlockHeight - nBlockStart;
      if i < 0 || i > |vecBudgetPayments| - 1 then None else Some(vecBudgetPayments[i])
    }
  }

  datatype Veto = Veto(nProposalHash: Hash256, nTime: int, vchSig: seq<Byte>, fValid: bool, fSynced: bool)

  datatype Hashes = Hashes(
    terms: Terms -> Hash256,
    veto: (Hash256, int) -> Hash256,
    finalized: (string, int, seq<Payment>) -> Hash256)

  /** What the code reads from elsewhere: the chain, the network's parameters, masternodes, clock, signatures. */
  datatype Env = Env(
    fMain: bool,
    tip: Option<nat>,
    vetoForkHeight: int,
    stakePointerForkHeight: int,
    blockValue: int -> nat,
    nEnabled: nat,
    now: int,
    sporkVeto: Terms -> bool,
    collateralOk: (Hash256, Hash256) -> bool,
    voteOk: (Hash256, Vote) -> bool)
  {
    function Cycle(): nat { if fMain then 4383 else 720 }

    function Established(nTime: int): bool { nTime < now - if fMain then 60 * 60 * 24 else 60 * 5 }

    /** Nothing without a tip; else two or ten percent of the block value, for every block of a cycle. */
    function TotalBudget(nHeight: int): nat {
      if tip.None? then 0 else blockValue(nHeight) / 100 * (if nHeight >= stakePointerForkHeight then 10 else 2) * Cycle()
    }

    /** The first block of the next payment cycle. */
    function NextStart(): int
      requires tip.Some?
    {
      tip.value - tip.value % Cycle() + Cycle()
    }

    function TipHeight(): int { if tip.Some? then tip.value else 0 }
  }

  datatype State = State(
    mapProposals: map<Hash256, Proposal>,
    mapFinalizedBudgets: map<Hash256, Finalized>,
    mapSeenVetoVotes: map<Hash256, Veto>,
    seenProposals: set<Hash256>,
    seenVotes: set<Hash256>,
    seenFinalized: set<Hash256>,
    seenFinalizedVotes: set<Hash256>)

  const Empty := State(map[], map[], map[], {}, {}, {}, {})

  // ----- Vetoes -----

  ghost predicate HasVeto(s: State, nProposalHash: Hash256) {
    exists k :: k in s.mapSeenVetoVotes && s.mapSeenVetoVotes[k].nProposalHash == nProposalHash && s.mapSeenVetoVotes[k].fValid
  }

  ghost predicate IsVetoed(env: Env, s: State, nProposalHash: Hash256, nHeight: int) {
    nHeight >= env.vetoForkHeight && HasVeto(s, nProposalHash)
  }

  ghost predicate PaymentVetoed(env: Env, s: State, f: Finalized, nBlockHeight: int) {
    var p := f.PaymentAt(nBlockHeight);
    p.Some? && IsVetoed(env, s, p.value.nProposalHash, nBlockHeight)
  }

  // ----- Validity -----

  /** CBudgetProposal::IsValid */
  ghost predicate ProposalValid(h: Hashes, env: Env, s: State, p: Proposal) {
    var t := p.terms;
    && !IsVetoed(env, s, h.terms(t), env.TipHeight())
    && -p.Net() <= env.nEnabled / 10
    && !(env.TipHeight() < env.vetoForkHeight && env.sporkVeto(t))
    && t.nBlockStart >= 0 && t.nBlockEnd >= t.nBlockStart && t.nAmount >= 10 * COIN && t.address != []
    && env.collateralOk(p.nFeeTXHash, h.terms(t))
    && !IsPayToScriptHash(t.address)
    && t.nAmount <= env.TotalBudget(t.nBlockStart)
    && (env.tip.None? || env.tip.value <=
        t.nBlockStart + env.Cycle() * ((t.nBlockEnd - (t.nBlockStart - t.nBlockStart % env.Cycle())) / env.Cycle()))
  }

  predicate IsPayToScriptHash(s: Script) {
    |s| == 23 && s[0] == 0xa9 && s[1] == 0x14 && s[22] == 0x87
  }

  function Total(payments: seq<Payment>): int {
    if payments == [] then 0 else Total(payments[..|payments| - 1]) + payments[|payments| - 1].nAmount
  }

  /** CFinalizedBudget::IsValid */
  ghost predicate FinalizedValid(h: Hashes, env: Env, s: State, f: Finalized) {
    && f.nBlockStart % env.Cycle() == 0 && f.BlockEnd() - f.nBlockStart <= 100 && |f.vecBudgetPayments| <= 100
    && f.strBudgetName != "" && f.nBlockStart != 0 && f.nFeeTXHash != 0
    && Total(f.vecBudgetPayments) <= env.TotalBudget(f.nBlockStart)
    && env.collateralOk(f.nFeeTXHash, h.finalized(f.strBudgetName, f.nBlockStart, f.vecBudgetPayments))
    && forall i :: 0 <= i < |f.vecBudgetPayments| ==>
        !IsVetoed(env, s, f.vecBudgetPayments[i].nProposalHash, f.nBlockStart + i)
  }

  // ----- GetBudget -----

  /** Votes that are no longer valid are marked; they stay in the map. */
  function CleanVotes(env: Env, votes: map<Hash256, Vote>): map<Hash256, Vote> {
    map k | k in votes :: votes[k].(fValid := env.voteOk(k, votes[k]))
  }

  function CleanedProposals(env: Env, m: map<Hash256, Proposal>): (r: map<Hash256, Proposal>)
    ensures r.Keys == m.Keys
  {
    map k | k in m :: m[k].(mapVotes := CleanVotes(env, m[k].mapVotes))
  }

  /** More votes first; with as many, the larger fee transaction hash. */
  predicate Before(p: Proposal, q: Proposal) {
    if p.Net() != q.Net() then p.Net() > q.Net() else p.nFeeTXHash > q.nFeeTXHash
  }

  /** What std::sort gives: each proposal once, none before one that comes before it. */
  ghost predicate Ranked(m: map<Hash256, Proposal>, order: seq<Hash256>) {
    && (forall k :: k in order <==> k in m)
    && (forall i :: 0 <= i < |order| ==> order[i] in m)
    && (forall i, j :: 0 <= i < j < |order| ==> order[i] != order[j] && !Before(m[order[j]], m[order[i]]))
  }

  lemma RankedMembers(m: map<Hash256, Proposal>, order: seq<Hash256>)
    requires Ranked(m, order)
    ensures forall i :: 0 <= i < |order| ==> order[i] in m
    ensures forall i, j :: 0 <= i < j < |order| ==> order[i] != order[j]
  {}

  /** The order prefers more votes, and among as many the larger fee transaction hash. */
  lemma RankedByVotes(m: map<Hash256, Proposal>, order: seq<Hash256>, i: nat, j: nat)
    requires Ranked(m, order) && i < j < |order|
    ensures order[i] in m && order[j] in m
    ensures var p, q := m[order[i]], m[order[j]]; p.Net() > q.Net() || (p.Net() == q.Net() && p.nFeeTXHash >= q.nFeeTXHash)
  {
    hide Proposal.Net;
  }

  /** The first test of the loop. */
  ghost predicate Eligible(h: Hashes, env: Env, s: State, p: Proposal, nBlockStart: int) {
    && p.fValid && !IsVetoed(env, s, h.terms(p.terms), nBlockStart)
    && p.terms.nBlockStart <= nBlockStart && p.terms.nBlockEnd >= nBlockStart + env.Cycle() - 1
    && p.Net() > env.nEnabled / 10 && env.Established(p.nTime)
  }

  datatype Allotment = Allotment(m: map<Hash256, Proposal>, ret: seq<Hash256>, nBudgetAllocated: int)

  ghost function AllotStep(h: Hashes, env: Env, s: State, a: Allotment, k: Hash256, nBlockStart: int): Allotment
    requires k in a.m
  {
    var p := a.m[k];
    if !Eligible(h, env, s, p, nBlockStart) then a
    else if p.terms.nAmount + a.nBudgetAllocated <= env.TotalBudget(nBlockStart) then
      Allotment(a.m[k := p.(nAlloted := p.terms.nAmount)], a.ret + [k], a.nBudgetAllocated + p.terms.nAmount)
    else a.(m := a.m[k := p.(nAlloted := 0)])
  }

  /** The loop over the first n proposals in order. */
  ghost function Allotted(h: Hashes, env: Env, s: State, m: map<Hash256, Proposal>, order: seq<Hash256>, n: nat): (a: Allotment)
    requires env.tip.Some? && n <= |order| && forall i :: 0 <= i < |order| ==> order[i] in m
    ensures a.m.Keys == m.Keys
  {
    if n == 0 then Allotment(m, [], 0)
    else AllotStep(h, env, s, Allotted(h, env, s, m, order, n - 1), order[n - 1], env.NextStart())
  }

  /** `order` is the order that the sort gives the cleaned proposals. */
  ghost function GetBudget(h: Hashes, env: Env, s: State, order: seq<Hash256>): (r: (State, seq<Hash256>))
    requires Ranked(CleanedProposals(env, s.mapProposals), order)
  {
    var m := CleanedProposals(env, s.mapProposals);
    if env.tip.None? then (s.(mapProposals := m), [])
    else
      var a := Allotted(h, env, s, m, order, |order|);
      (s.(mapProposals := a.m), a.ret)
  }

  /** Up to what it was allotted, which the loop sets, a proposal stays as it was. */
  ghost predicate SameButAllotted(p: Proposal, q: Proposal) {
    q == p.(nAlloted := q.nAlloted)
  }

  function SumAlloted(m: map<Hash256, Proposal>, ret: seq<Hash256>): int
    requires forall i :: 0 <= i < |ret| ==> ret[i] in m
  {
    if ret == [] then 0 else SumAlloted(m, ret[..|ret| - 1]) + m[ret[|ret| - 1]].nAlloted
  }

  lemma {:induction false} SumIgnoresOthers(m: map<Hash256, Proposal>, ret: seq<Hash256>, k: Hash256, p: Proposal)
    requires forall i :: 0 <= i < |ret| ==> ret[i] in m && ret[i] != k
    ensures SumAlloted(m[k := p], ret) == SumAlloted(m, ret)
  {
    if ret != [] { SumIgnoresOthers(m, ret[..|ret| - 1], k, p); }
  }

  /** What is returned: each proposal once, eligible, with what it asks for allotted to it. */
  ghost predicate ReturnsOk(h: Hashes, env: Env, s: State, m: map<Hash256, Proposal>, order: seq<Hash256>, n: nat, a: Allotment)
    requires env.tip.Some? && n <= |order| && forall i :: 0 <= i < |order| ==> order[i] in m
  {
    && a.m.Keys == m.Keys
    && (forall i :: 0 <= i < |a.ret| ==> a.ret[i] in m && a.ret[i] in order[..n])
    && (forall i :: 0 <= i < |a.ret| ==> a.m[a.ret[i]].nAlloted == m[a.ret[i]].terms.nAmount)
    && (forall i :: 0 <= i < |a.ret| ==> Eligible(h, env, s, m[a.ret[i]], env.NextStart()))
    && (forall i, j :: 0 <= i < j < |a.ret| ==> a.ret[i] != a.ret[j])
  }

  /** What the loop keeps. */
  ghost predicate AllottedOk(h: Hashes, env: Env, s: State, m: map<Hash256, Proposal>, order: seq<Hash256>, n: nat, a: Allotment)
    requires env.tip.Some? && n <= |order| && forall i :: 0 <= i < |order| ==> order[i] in m
  {
    && ReturnsOk(h, env, s, m, order, n, a)
    && (forall k :: k in m ==> SameButAllotted(m[k], a.m[k]))
    && SumAlloted(a.m, a.ret) == a.nBudgetAllocated <= env.TotalBudget(env.NextStart())
  }

  lemma AllotStepOk(h: Hashes, env: Env, s: State, m: map<Hash256, Proposal>, order: seq<Hash256>, n: nat, a: Allotment)
    requires env.tip.Some? && n < |order| && (forall i :: 0 <= i < |order| ==> order[i] in m)
    requires (forall i, j :: 0 <= i < j < |order| ==> order[i] != order[j]) && AllottedOk(h, env, s, m, order, n, a)
    ensures AllottedOk(h, env, s, m, order, n + 1, AllotStep(h, env, s, a, order[n], env.NextStart()))
  {
    hide Eligible, AllotStep, SumAlloted, SameButAllotted, Env.TotalBudget, Env.NextStart;
    var k := order[n];
    NotReturnedBefore(m, order, n, a);
    StepReturnsOk(h, env, s, m, order, n, a);
    StepSum(h, env, s, a, k, env.NextStart());
    StepAltersAllotted(h, env, s, m, a, k, env.NextStart());
  }

  lemma StepAltersAllotted(h: Hashes, env: Env, s: State, m: map<Hash256, Proposal>, a: Allotment, k: Hash256, nBlockStart: int)
    requires k in a.m && a.m.Keys == m.Keys && forall j :: j in m ==> SameButAllotted(m[j], a.m[j])
    ensures var a' := AllotStep(h, env, s, a, k, nBlockStart);
      a'.m.Keys == m.Keys && forall j :: j in m ==> SameButAllotted(m[j], a'.m[j])
  {
    hide Eligible, Env.TotalBudget;
    var a' := AllotStep(h, env, s, a, k, nBlockStart);
    forall j | j in m ensures SameButAllotted(m[j], a'.m[j]) {
      assert SameButAllotted(m[j], a.m[j]);
    }
  }

  lemma NotReturnedBefore(m: map<Hash256, Proposal>, order: seq<Hash256>, n: nat, a: Allotment)
    requires n < |order| && (forall i, j :: 0 <= i < j < |order| ==> order[i] != order[j])
    requires forall i :: 0 <= i < |a.ret| ==> a.ret[i] in order[..n]
    ensures forall i :: 0 <= i < |a.ret| ==> a.ret[i] != order[n]
  {
    forall i | 0 <= i < |a.ret| ensures a.ret[i] != order[n] {
      var j :| 0 <= j < n && order[..n][j] == a.ret[i];
    }
  }

  lemma StepReturnsOk(h: Hashes, env: Env, s: State, m: map<Hash256, Proposal>, order: seq<Hash256>, n: nat, a: Allotment)
    requires env.tip.Some? && n < |order| && (forall i :: 0 <= i < |order| ==> order[i] in m)
    requires ReturnsOk(h, env, s, m, order, n, a) && SameButAllotted(m[order[n]], a.m[order[n]])
    requires forall i :: 0 <= i < |a.ret| ==> a.ret[i] != order[n]
    ensures ReturnsOk(h, env, s, m, order, n + 1, AllotStep(h, env, s, a, order[n], env.NextStart()))
  {
    hide Eligible, Env.TotalBudget, Env.NextStart, Proposal.Net;
    assert order[..n + 1] == order[..n] + [order[n]];
    EligibleIgnoresAllotted(h, env, s, m[order[n]], a.m[order[n]], env.NextStart());
  }

  lemma StepSum(h: Hashes, env: Env, s: State, a: Allotment, k: Hash256, nBlockStart: int)
    requires k in a.m && (forall i :: 0 <= i < |a.ret| ==> a.ret[i] in a.m && a.ret[i] != k)
    requires SumAlloted(a.m, a.ret) == a.nBudgetAllocated <= env.TotalBudget(nBlockStart)
    ensures var a' := AllotStep(h, env, s, a, k, nBlockStart);
      && (forall i :: 0 <= i < |a'.ret| ==> a'.ret[i] in a'.m)
      && SumAlloted(a'.m, a'.ret) == a'.nBudgetAllocated <= env.TotalBudget(nBlockStart)
  {
    hide Eligible, Env.TotalBudget;
    var a' := AllotStep(h, env, s, a, k, nBlockStart);
    SumIgnoresOthers(a.m, a.ret, k, a'.m[k]);
    assert a.m[k := a'.m[k]] == a'.m;
    assert (a.ret + [k])[..|a.ret|] == a.ret;
  }

  lemma EligibleIgnoresAllotted(h: Hashes, env: Env, s: State, p: Proposal, q: Proposal, nBlockStart: int)
    requires SameButAllotted(p, q)
    ensures Eligible(h, env, s, p, nBlockStart) == Eligible(h, env, s, q, nBlockStart)
  {
    assert q.Net() == p.Net();
  }

  lemma {:induction false} LoopKeepsAllotted(h: Hashes, env: Env, s: State, m: map<Hash256, Proposal>, order: seq<Hash256>, n: nat)
    requires env.tip.Some? && n <= |order| && (forall i :: 0 <= i < |order| ==> order[i] in m)
    requires forall i, j :: 0 <= i < j < |order| ==> order[i] != order[j]
    ensures AllottedOk(h, env, s, m, order, n, Allotted(h, env, s, m, order, n))
  {
    hide AllottedOk, AllotStep;
    if n == 0 {
      NothingAllotted(h, env, s, m, order);
    } else {
      LoopKeepsAllotted(h, env, s, m, order, n - 1);
      AllotStepOk(h, env, s, m, order, n - 1, Allotted(h, env, s, m, order, n - 1));
    }
  }

  lemma NothingAllotted(h: Hashes, env: Env, s: State, m: map<Hash256, Proposal>, order: seq<Hash256>)
    requires env.tip.Some? && forall i :: 0 <= i < |order| ==> order[i] in m
    ensures AllottedOk(h, env, s, m, order, 0, Allotment(m, [], 0))
  {}

  /**
    GetBudget returns each proposal at most once, with the amount it asks for allotted to it, only ones that
    are valid, not vetoed at the start of the cycle and supported; together they stay within the total budget.
    */
  lemma BudgetFits(h: Hashes, env: Env, s: State, order: seq<Hash256>)
    requires env.tip.Some? && Ranked(CleanedProposals(env, s.mapProposals), order)
    ensures var (t, ret) := GetBudget(h, env, s, order);
      && (forall i :: 0 <= i < |ret| ==> ret[i] in t.mapProposals && t.mapProposals[ret[i]].nAlloted == t.mapProposals[ret[i]].terms.nAmount)
      && (forall i :: 0 <= i < |ret| ==> Eligible(h, env, s, t.mapProposals[ret[i]], env.NextStart()))
      && (forall i, j :: 0 <= i < j < |ret| ==> ret[i] != ret[j])
      && SumAlloted(t.mapProposals, ret) <= env.TotalBudget(env.NextStart())
  {
    hide Eligible, Env.TotalBudget, Env.NextStart;
    var m := CleanedProposals(env, s.mapProposals);
    LoopKeepsAllotted(h, env, s, m, order, |order|);
    var (t, ret) := GetBudget(h, env, s, order);
    forall i | 0 <= i < |ret| ensures t.mapProposals[ret[i]].nAlloted == t.mapProposals[ret[i]].terms.nAmount
        && Eligible(h, env, s, t.mapProposals[ret[i]], env.NextStart()) {
      assert SameButAllotted(m[ret[i]], t.mapProposals[ret[i]]);
      EligibleIgnoresAllotted(h, env, s, m[ret[i]], t.mapProposals[ret[i]], env.NextStart());
    }
  }

  /** The greedy choice: an eligible proposal is only left out if it does not fit beside those ranked before it. */
  lemma {:induction false} LeftOutOnlyIfTooLarge(h: Hashes, env: Env, s: State, m: map<Hash256, Proposal>, order: seq<Hash256>, n: nat, j: nat)
    requires env.tip.Some? && j < n <= |order| && (forall i :: 0 <= i < |order| ==> order[i] in m)
    requires forall i, j :: 0 <= i < j < |order| ==> order[i] != order[j]
    requires Eligible(h, env, s, m[order[j]], env.NextStart())
    ensures order[j] in Allotted(h, env, s, m, order, n).ret
      <==> m[order[j]].terms.nAmount + Allotted(h, env, s, m, order, j).nBudgetAllocated <= env.TotalBudget(env.NextStart())
  {
    hide Eligible, Env.TotalBudget, Env.NextStart, AllotStep, AllottedOk;
    LoopKeepsAllotted(h, env, s, m, order, n - 1);
    var a := Allotted(h, env, s, m, order, n - 1);
    if n == j + 1 {
      NotYetReturned(h, env, s, m, order, j, a);
      StepReturns(h, env, s, a, order[j], env.NextStart(), order[j]);
    } else {
      LeftOutOnlyIfTooLarge(h, env, s, m, order, n - 1, j);
      StepReturns(h, env, s, a, order[n - 1], env.NextStart(), order[j]);
    }
  }

  lemma NotYetReturned(h: Hashes, env: Env, s: State, m: map<Hash256, Proposal>, order: seq<Hash256>, j: nat, a: Allotment)
    requires env.tip.Some? && j < |order| && (forall i :: 0 <= i < |order| ==> order[i] in m)
    requires (forall i, j :: 0 <= i < j < |order| ==> order[i] != order[j]) && AllottedOk(h, env, s, m, order, j, a)
    requires Eligible(h, env, s, m[order[j]], env.NextStart())
    ensures order[j] !in a.ret && order[j] in a.m && Eligible(h, env, s, a.m[order[j]], env.NextStart())
    ensures a.m[order[j]].terms == m[order[j]].terms
  {
    hide Eligible, Env.TotalBudget, Env.NextStart;
    assert SameButAllotted(m[order[j]], a.m[order[j]]);
    EligibleIgnoresAllotted(h, env, s, m[order[j]], a.m[order[j]], env.NextStart());
    forall i | 0 <= i < |a.ret| ensures a.ret[i] != order[j] {
      var l :| 0 <= l < j && order[..j][l] == a.ret[i];
    }
  }

  ghost predicate Granted(h: Hashes, env: Env, s: State, a: Allotment, k: Hash256, nBlockStart: int)
    requires k in a.m
  {
    Eligible(h, env, s, a.m[k], nBlockStart) && a.m[k].terms.nAmount + a.nBudgetAllocated <= env.TotalBudget(nBlockStart)
  }

  lemma StepReturns(h: Hashes, env: Env, s: State, a: Allotment, k: Hash256, nBlockStart: int, x: Hash256)
    requires k in a.m
    ensures x in AllotStep(h, env, s, a, k, nBlockStart).ret <==> (x in a.ret || (x == k && Granted(h, env, s, a, k, nBlockStart)))
  {}

  // ----- Finalized budgets -----

  /** SubmitFinalBudget's payments for the proposals that GetBudget returned. */
  function PaymentsFor(h: Hashes, m: map<Hash256, Proposal>, ret: seq<Hash256>): (v: seq<Payment>)
    requires forall i :: 0 <= i < |ret| ==> ret[i] in m
    ensures |v| == |ret|
    ensures forall i :: 0 <= i < |ret| ==> v[i] == Payment(h.terms(m[ret[i]].terms), m[ret[i]].terms.address, m[ret[i]].nAlloted)
  {
    if ret == [] then [] else
      var k := ret[|ret| - 1];
      PaymentsFor(h, m, ret[..|ret| - 1]) + [Payment(h.terms(m[k].terms), m[k].terms.address, m[k].nAlloted)]
  }

  lemma {:induction false} PaymentsTotal(h: Hashes, m: map<Hash256, Proposal>, ret: seq<Hash256>)
    requires forall i :: 0 <= i < |ret| ==> ret[i] in m
    ensures Total(PaymentsFor(h, m, ret)) == SumAlloted(m, ret)
  {
    hide Total, PaymentsFor, SumAlloted;
    TotalStep(PaymentsFor(h, m, ret));
    SumStep(m, ret);
    if ret != [] {
      PaymentsTotal(h, m, ret[..|ret| - 1]);
      PaymentsPrefix(h, m, ret);
    }
  }

  lemma TotalStep(v: seq<Payment>)
    ensures Total(v) == if v == [] then 0 else Total(v[..|v| - 1]) + v[|v| - 1].nAmount
  {}

  lemma SumStep(m: map<Hash256, Proposal>, ret: seq<Hash256>)
    requires forall i :: 0 <= i < |ret| ==> ret[i] in m
    ensures SumAlloted(m, ret) == if ret == [] then 0 else SumAlloted(m, ret[..|ret| - 1]) + m[ret[|ret| - 1]].nAlloted
  {}

  lemma PaymentsPrefix(h: Hashes, m: map<Hash256, Proposal>, ret: seq<Hash256>)
    requires ret != [] && forall i :: 0 <= i < |ret| ==> ret[i] in m
    ensures PaymentsFor(h, m, ret)[..|ret| - 1] == PaymentsFor(h, m, ret[..|ret| - 1])
  {}

  ghost function Submitted(h: Hashes, env: Env, s: State, order: seq<Hash256>, nFeeTXHash: Hash256): Finalized
    requires env.tip.Some? && Ranked(CleanedProposals(env, s.mapProposals), order)
  {
    BudgetFits(h, env, s, order);
    var (t, ret) := GetBudget(h, env, s, order);
    Finalized("main", env.NextStart(), PaymentsFor(h, t.mapProposals, ret), map[], nFeeTXHash, true)
  }

  /**
    On the same tip the budget built from GetBudget is valid exactly when its collateral is, it has at most a
    hundred payments, and no recorded veto of a proposal it returns takes effect before that proposal's own block.
    The payout limit always holds.
    */
  lemma SubmittedBudgetIsValid(h: Hashes, env: Env, s: State, order: seq<Hash256>, nFeeTXHash: Hash256)
    requires env.tip.Some? && Ranked(CleanedProposals(env, s.mapProposals), order)
    ensures var f := Submitted(h, env, s, order, nFeeTXHash); var t := GetBudget(h, env, s, order).0;
      && Total(f.vecBudgetPayments) <= env.TotalBudget(f.nBlockStart)
      && (FinalizedValid(h, env, t, f) <==>
          && nFeeTXHash != 0 && env.collateralOk(nFeeTXHash, h.finalized("main", f.nBlockStart, f.vecBudgetPayments))
          && |f.vecBudgetPayments| <= 100
          && !VetoBites(h, env, s, order))
  {
    hide Env.TotalBudget, Env.NextStart, Env.Cycle, IsVetoed, GetBudget, Eligible, PaymentsFor, VetoBites;
    BudgetFits(h, env, s, order);
    VetoedPayments(h, env, s, order, nFeeTXHash);
    var (t, ret) := GetBudget(h, env, s, order);
    PaymentsTotal(h, t.mapProposals, ret);
    StartOfCycle(env);
    VetoesOfSubmitted(h, env, s, order, nFeeTXHash);
  }

  // ----- Which recorded vetoes reach a submitted budget -----

  /** Proposal j of the order is the one returned at place i. */
  ghost predicate ReturnedFrom(h: Hashes, env: Env, s: State, m: map<Hash256, Proposal>, order: seq<Hash256>, j: nat, i: nat)
    requires env.tip.Some? && forall i :: 0 <= i < |order| ==> order[i] in m
  {
    j < |order| && |Allotted(h, env, s, m, order, j).ret| == i && Granted(h, env, s, Allotted(h, env, s, m, order, j), order[j], env.NextStart())
  }

  /** That proposal has a recorded veto, and the block of its place is at or after the fork height. */
  ghost predicate BitesAt(h: Hashes, env: Env, s: State, m: map<Hash256, Proposal>, order: seq<Hash256>, j: nat, i: nat)
    requires env.tip.Some? && forall i :: 0 <= i < |order| ==> order[i] in m
  {
    && j < |order| && ReturnedFrom(h, env, s, m, order, j, i)
    && env.NextStart() + i >= env.vetoForkHeight && HasVeto(s, h.terms(m[order[j]].terms))
  }

  /** There is such a proposal. */
  ghost predicate VetoBites(h: Hashes, env: Env, s: State, order: seq<Hash256>)
    requires env.tip.Some? && Ranked(CleanedProposals(env, s.mapProposals), order)
  {
    var m := CleanedProposals(env, s.mapProposals);
    exists j: nat, i: nat :: BitesAt(h, env, s, m, order, j, i)
  }

  /** What is returned at a place is a proposal of the order that was granted with so many before it. */
  lemma {:induction false} OriginOf(h: Hashes, env: Env, s: State, m: map<Hash256, Proposal>, order: seq<Hash256>, n: nat, i: nat) returns (j: nat)
    requires env.tip.Some? && n <= |order| && (forall i :: 0 <= i < |order| ==> order[i] in m)
    requires i < |Allotted(h, env, s, m, order, n).ret|
    ensures j < n && ReturnedFrom(h, env, s, m, order, j, i) && order[j] == Allotted(h, env, s, m, order, n).ret[i]
  {
    hide Granted, AllotStep, Env.NextStart;
    j := n - 1;
    var b := Allotted(h, env, s, m, order, n - 1);
    StepAppends(h, env, s, b, order[n - 1], env.NextStart());
    if i < |b.ret| {
      j := OriginOf(h, env, s, m, order, n - 1, i);
    }
  }

  /** And a proposal that was granted with so many before it is returned at that place. */
  lemma {:induction false} ReturnedAt(h: Hashes, env: Env, s: State, m: map<Hash256, Proposal>, order: seq<Hash256>, n: nat, j: nat, i: nat)
    requires env.tip.Some? && n <= |order| && (forall i :: 0 <= i < |order| ==> order[i] in m)
    requires j < n && ReturnedFrom(h, env, s, m, order, j, i)
    ensures var r := Allotted(h, env, s, m, order, n).ret; i < |r| && r[i] == order[j]
  {
    hide Granted, AllotStep, Env.NextStart;
    StepAppends(h, env, s, Allotted(h, env, s, m, order, n - 1), order[n - 1], env.NextStart());
    if j < n - 1 { ReturnedAt(h, env, s, m, order, n - 1, j, i); }
  }

  lemma StepAppends(h: Hashes, env: Env, s: State, a: Allotment, k: Hash256, nBlockStart: int)
    requires k in a.m
    ensures AllotStep(h, env, s, a, k, nBlockStart).ret == a.ret + if Granted(h, env, s, a, k, nBlockStart) then [k] else []
  {}

  /** A submitted budget pays a vetoed proposal exactly if a veto bites. */
  lemma VetoedPayments(h: Hashes, env: Env, s: State, order: seq<Hash256>, nFeeTXHash: Hash256)
    requires env.tip.Some? && Ranked(CleanedProposals(env, s.mapProposals), order)
    ensures var f := Submitted(h, env, s, order, nFeeTXHash);
      VetoBites(h, env, s, order) <==> exists i :: 0 <= i < |f.vecBudgetPayments| && IsVetoed(env, s, f.vecBudgetPayments[i].nProposalHash, f.nBlockStart + i)
  {
    hide HasVeto, ReturnedFrom, Eligible, Env.TotalBudget, Env.NextStart, Allotted, AllottedOk, PaymentsFor, CleanedProposals;
    var m := CleanedProposals(env, s.mapProposals);
    RankedMembers(m, order);
    PaidFor(h, env, s, order, nFeeTXHash);
    var f := Submitted(h, env, s, order, nFeeTXHash);
    if VetoBites(h, env, s, order) {
      var j: nat, i: nat :| BitesAt(h, env, s, m, order, j, i);
      ReturnedAt(h, env, s, m, order, |order|, j, i);
      assert IsVetoed(env, s, f.vecBudgetPayments[i].nProposalHash, f.nBlockStart + i);
    }
    if i :| 0 <= i < |f.vecBudgetPayments| && IsVetoed(env, s, f.vecBudgetPayments[i].nProposalHash, f.nBlockStart + i) {
      var j := OriginOf(h, env, s, m, order, |order|, i);
      assert BitesAt(h, env, s, m, order, j, i);
    }
  }

  lemma PaidFor(h: Hashes, env: Env, s: State, order: seq<Hash256>, nFeeTXHash: Hash256)
    requires env.tip.Some? && Ranked(CleanedProposals(env, s.mapProposals), order)
    ensures var m := CleanedProposals(env, s.mapProposals); var f := Submitted(h, env, s, order, nFeeTXHash);
      && (forall i :: 0 <= i < |order| ==> order[i] in m)
      && (var ret := Allotted(h, env, s, m, order, |order|).ret;
          |ret| == |f.vecBudgetPayments| && f.nBlockStart == env.NextStart() &&
          forall i :: 0 <= i < |ret| ==> ret[i] in m && f.vecBudgetPayments[i].nProposalHash == h.terms(m[ret[i]].terms))
  {
    hide Eligible, Env.TotalBudget, Env.NextStart, CleanedProposals, Allotted;
    var m := CleanedProposals(env, s.mapProposals);
    RankedMembers(m, order);
    LoopKeepsAllotted(h, env, s, m, order, |order|);
    var (t, ret) := GetBudget(h, env, s, order);
    forall i | 0 <= i < |ret| ensures ret[i] in m && t.mapProposals[ret[i]].terms == m[ret[i]].terms {
      assert SameButAllotted(m[ret[i]], t.mapProposals[ret[i]]);
    }
  }

  /** No veto bites if the fork height is not after the start of the cycle, or no eligible proposal has a veto recorded. */
  lemma NoVetoBites(h: Hashes, env: Env, s: State, order: seq<Hash256>)
    requires env.tip.Some? && Ranked(CleanedProposals(env, s.mapProposals), order)
    requires var m := CleanedProposals(env, s.mapProposals);
      || env.vetoForkHeight <= env.NextStart()
      || forall k :: k in m && Eligible(h, env, s, m[k], env.NextStart()) ==> !HasVeto(s, h.terms(m[k].terms))
    ensures !VetoBites(h, env, s, order)
  {
    hide HasVeto, Env.TotalBudget, Env.NextStart, AllotStep, Proposal.Net, Env.Established;
    var m := CleanedProposals(env, s.mapProposals);
    if VetoBites(h, env, s, order) {
      RankedMembers(m, order);
      var j: nat, i: nat :| BitesAt(h, env, s, m, order, j, i);
      LoopKeepsAllotted(h, env, s, m, order, j);
      var a := Allotted(h, env, s, m, order, j);
      assert SameButAllotted(m[order[j]], a.m[order[j]]);
      EligibleIgnoresAllotted(h, env, s, m[order[j]], a.m[order[j]], env.NextStart());
    }
  }

  // ----- A submitted budget that is invalid -----

  /** A supported proposal for 10 coins in every cycle; its name is as long as its hash says. */
  function Asking(name: string, nFeeTXHash: Hash256): Proposal {
    Proposal(Terms(name, "", 0, 100000, 10 * COIN, [1]), 0, nFeeTXHash, map[5 := Vote(VOTE_YES, 0, true)], true, 0)
  }

  const BY_LENGTH := Hashes((t: Terms) => |t.strProposalName|, (_, _) => 0, (_, _, _) => 0)

  /** The next cycle starts at block 720; vetoes take effect one block later. */
  const FORK_AT_721 := Env(false, Some(0), 721, 1000000, _ => 100 * COIN, 0, 1000, _ => false, (_, _) => true, (_, _) => true)

  /** Two proposals, with a valid veto recorded against the second. */
  const SECOND_VETOED := State(map[1 := Asking("a", 9), 2 := Asking("bb", 8)], map[], map[3 := Veto(2, 0, [], true, true)], {}, {}, {}, {})

  lemma OneVote(name: string, nFeeTXHash: Hash256)
    ensures Asking(name, nFeeTXHash).Net() == 1
  {
    var p := Asking(name, nFeeTXHash);
    assert (set k | k in p.mapVotes && p.mapVotes[k].nVote == VOTE_YES && p.mapVotes[k].fValid) == {5};
    assert (set k | k in p.mapVotes && p.mapVotes[k].nVote == VOTE_NO && p.mapVotes[k].fValid) == {};
  }

  lemma BothRanked()
    ensures CleanedProposals(FORK_AT_721, SECOND_VETOED.mapProposals) == SECOND_VETOED.mapProposals
    ensures Ranked(SECOND_VETOED.mapProposals, [1, 2])
  {
    hide Proposal.Net, CleanedProposals;
    OneVote("a", 9);
    OneVote("bb", 8);
    NothingToClean();
    var m := SECOND_VETOED.mapProposals;
    assert !Before(m[2], m[1]);
  }

  lemma NothingToClean()
    ensures CleanedProposals(FORK_AT_721, SECOND_VETOED.mapProposals) == SECOND_VETOED.mapProposals
  {
    var m, votes := SECOND_VETOED.mapProposals, map[5 := Vote(VOTE_YES, 0, true)];
    assert CleanVotes(FORK_AT_721, votes) == votes;
    var c := CleanedProposals(FORK_AT_721, m);
    forall k | k in m ensures c[k] == m[k] { assert m[k].mapVotes == votes; }
  }

  /** For example: just before the fork height a budget is submitted that is invalid, though its collateral is right. */
  lemma SubmittedButInvalid()
    ensures Ranked(CleanedProposals(FORK_AT_721, SECOND_VETOED.mapProposals), [1, 2])
    ensures var f := Submitted(BY_LENGTH, FORK_AT_721, SECOND_VETOED, [1, 2], 7);
      && |f.vecBudgetPayments| == 2 && f.nBlockStart == 720 && IsVetoed(FORK_AT_721, SECOND_VETOED, f.vecBudgetPayments[1].nProposalHash, 721)
      && !FinalizedValid(BY_LENGTH, FORK_AT_721, GetBudget(BY_LENGTH, FORK_AT_721, SECOND_VETOED, [1, 2]).0, f)
  {
    hide Proposal.Net, FinalizedValid, Ranked, CleanedProposals;
    OneVote("a", 9);
    OneVote("bb", 8);
    BothRanked();
    var h, env, s, order := BY_LENGTH, FORK_AT_721, SECOND_VETOED, [1, 2];
    assert s.mapSeenVetoVotes[3].nProposalHash == 2;
    assert HasVeto(s, 2);
    SubmittedBudgetIsValid(h, env, s, order, 7);
    BothReturned();
    assert IsVetoed(env, s, 2, 721);
    VetoedPayments(h, env, s, order, 7);
  }

  lemma BothReturned()
    ensures var m := SECOND_VETOED.mapProposals; Allotted(BY_LENGTH, FORK_AT_721, SECOND_VETOED, m, [1, 2], 2).ret == [1, 2]
    ensures CleanedProposals(FORK_AT_721, SECOND_VETOED.mapProposals) == SECOND_VETOED.mapProposals
    ensures Ranked(SECOND_VETOED.mapProposals, [1, 2])
    ensures var f := Submitted(BY_LENGTH, FORK_AT_721, SECOND_VETOED, [1, 2], 7);
      |f.vecBudgetPayments| == 2 && f.vecBudgetPayments[1].nProposalHash == 2 && f.nBlockStart == 720
  {
    hide Proposal.Net, Ranked, CleanedProposals;
    OneVote("a", 9);
    OneVote("bb", 8);
    BothRanked();
    var h, env, s, m := BY_LENGTH, FORK_AT_721, SECOND_VETOED, SECOND_VETOED.mapProposals;
    assert env.NextStart() == 720 && env.TotalBudget(720) == 1440 * COIN;
    assert Allotted(h, env, s, m, [1, 2], 0) == Allotment(m, [], 0);
    var a := Allotted(h, env, s, m, [1, 2], 1);
    assert a == AllotStep(h, env, s, Allotment(m, [], 0), 1, 720);
    assert a.ret == [1] && a.nBudgetAllocated == 10 * COIN && a.m[2] == m[2];
    PaidFor(h, env, s, [1, 2], 7);
  }

  lemma VetoesOfSubmitted(h: Hashes, env: Env, s: State, order: seq<Hash256>, nFeeTXHash: Hash256)
    requires env.tip.Some? && Ranked(CleanedProposals(env, s.mapProposals), order)
    ensures var f := Submitted(h, env, s, order, nFeeTXHash); var t := GetBudget(h, env, s, order).0;
      forall i {:trigger f.vecBudgetPayments[i]} :: 0 <= i < |f.vecBudgetPayments| ==>
        && IsVetoed(env, t, f.vecBudgetPayments[i].nProposalHash, f.nBlockStart + i)
            == IsVetoed(env, s, f.vecBudgetPayments[i].nProposalHash, f.nBlockStart + i)
        && (env.vetoForkHeight <= f.nBlockStart ==> !IsVetoed(env, s, f.vecBudgetPayments[i].nProposalHash, f.nBlockStart + i))
  {
    hide Env.TotalBudget, Env.NextStart, Env.Cycle, HasVeto, GetBudget, Proposal.Net, Env.Established, Ranked;
    BudgetFits(h, env, s, order);
    var (t, ret) := GetBudget(h, env, s, order);
    var f := Submitted(h, env, s, order, nFeeTXHash);
    forall i | 0 <= i < |ret| ensures
      && IsVetoed(env, t, f.vecBudgetPayments[i].nProposalHash, f.nBlockStart + i)
          == IsVetoed(env, s, f.vecBudgetPayments[i].nProposalHash, f.nBlockStart + i)
      && (env.vetoForkHeight <= f.nBlockStart ==> !IsVetoed(env, s, f.vecBudgetPayments[i].nProposalHash, f.nBlockStart + i)) {
      BudgetKeepsVetoes(h, env, s, order, f.vecBudgetPayments[i].nProposalHash);
    }
  }

  lemma SameVetoes(s: State, t: State, x: Hash256)
    requires s.mapSeenVetoVotes == t.mapSeenVetoVotes
    ensures HasVeto(s, x) == HasVeto(t, x)
  {}

  lemma StartOfCycle(env: Env)
    requires env.tip.Some?
    ensures env.NextStart() % env.Cycle() == 0 && env.NextStart() > env.tip.value
  {}

  /** AutoCheck's comparison: the same proposals in the same order, with payee and amount as the proposal says. */
  ghost predicate Matches(h: Hashes, m: map<Hash256, Proposal>, ret: seq<Hash256>, f: Finalized)
    requires forall i :: 0 <= i < |ret| ==> ret[i] in m
  {
    && ret != [] && |ret| == |f.vecBudgetPayments|
    && forall i :: 0 <= i < |ret| ==>
        f.vecBudgetPayments[i] == Payment(h.terms(m[ret[i]].terms), m[ret[i]].terms.address, m[ret[i]].terms.nAmount)
  }

  /** A masternode that sees the same budget votes for a finalized one exactly if it is the one it would submit. */
  lemma AutoCheckAgrees(h: Hashes, env: Env, s: State, order: seq<Hash256>, f: Finalized)
    requires env.tip.Some? && Ranked(CleanedProposals(env, s.mapProposals), order)
    ensures var (t, ret) := GetBudget(h, env, s, order);
      (forall i :: 0 <= i < |ret| ==> ret[i] in t.mapProposals) &&
      (Matches(h, t.mapProposals, ret, f) <==>
        f.vecBudgetPayments != [] && f.vecBudgetPayments == Submitted(h, env, s, order, 0).vecBudgetPayments)
  {
    hide Eligible, Env.TotalBudget, Env.NextStart;
    BudgetFits(h, env, s, order);
  }

  // ----- Paying -----

  /** A finalized budget that may be paid from at a height. */
  ghost predicate Payable(env: Env, s: State, f: Finalized, nBlockHeight: int) {
    f.fValid && f.nBlockStart <= nBlockHeight <= f.BlockEnd() && !PaymentVetoed(env, s, f, nBlockHeight)
  }

  /** The keys in the order of the map. */
  ghost predicate Listed(m: map<Hash256, Finalized>, order: seq<Hash256>) {
    (forall k :: k in order <==> k in m) && forall i, j :: 0 <= i < j < |order| ==> order[i] < order[j]
  }

  /** The payable budget with the most votes among the first n, the first one of those; None without any vote. */
  ghost predicate IsBest(env: Env, s: State, nBlockHeight: int, order: seq<Hash256>, n: nat, r: Option<Hash256>)
    requires n <= |order| && Listed(s.mapFinalizedBudgets, order)
  {
    match r
    case None => forall i :: 0 <= i < n && order[i] in s.mapFinalizedBudgets && Payable(env, s, s.mapFinalizedBudgets[order[i]], nBlockHeight) ==>
      s.mapFinalizedBudgets[order[i]].VoteCount() == 0
    case Some(k) =>
      && k in s.mapFinalizedBudgets && k in order[..n]
      && Payable(env, s, s.mapFinalizedBudgets[k], nBlockHeight) && s.mapFinalizedBudgets[k].VoteCount() > 0
      && forall i :: 0 <= i < n && order[i] in s.mapFinalizedBudgets && Payable(env, s, s.mapFinalizedBudgets[order[i]], nBlockHeight) ==>
          && s.mapFinalizedBudgets[order[i]].VoteCount() <= s.mapFinalizedBudgets[k].VoteCount()
          && (order[i] < k ==> s.mapFinalizedBudgets[order[i]].VoteCount() < s.mapFinalizedBudgets[k].VoteCount())
  }

  lemma NoneIsBest(env: Env, s: State, nBlockHeight: int, order: seq<Hash256>)
    requires Listed(s.mapFinalizedBudgets, order)
    ensures IsBest(env, s, nBlockHeight, order, 0, None)
  {}

  /** One more budget is looked at: it is taken if it is payable and has strictly more votes. */
  lemma BestMoves(env: Env, s: State, nBlockHeight: int, order: seq<Hash256>, i: nat, r: Option<Hash256>)
    requires i < |order| && Listed(s.mapFinalizedBudgets, order) && IsBest(env, s, nBlockHeight, order, i, r)
    ensures order[i] in s.mapFinalizedBudgets && (r.Some? ==> r.value in s.mapFinalizedBudgets)
    ensures var f := s.mapFinalizedBudgets[order[i]]; var n := if r.None? then 0 else s.mapFinalizedBudgets[r.value].VoteCount();
      && (f.VoteCount() > n && Payable(env, s, f, nBlockHeight) ==> IsBest(env, s, nBlockHeight, order, i + 1, Some(order[i])))
      && (!(f.VoteCount() > n && Payable(env, s, f, nBlockHeight)) ==> IsBest(env, s, nBlockHeight, order, i + 1, r))
      && (Payable(env, s, f, nBlockHeight)
          <==> f.fValid && f.nBlockStart <= nBlockHeight <= f.BlockEnd() && !PaymentVetoed(env, s, f, nBlockHeight))
      && (Payable(env, s, f, nBlockHeight) ==> f.PaymentAt(nBlockHeight).Some?)
  {
    hide PaymentVetoed;
  }

  function Paid(vout: seq<TxOut>, blockValue: int, fProofOfStake: bool, p: Option<Payment>): seq<TxOut>
    requires !fProofOfStake ==> |vout| > 0
  {
    if fProofOfStake then
      match p case None => vout case Some(q) => vout + [TxOut(q.nAmount, q.payee)]
    else
      var first := vout[0].(nValue := blockValue);
      match p case None => [first] + vout[1..] case Some(q) => [first, TxOut(q.nAmount, q.payee)]
  }

  // ----- Steps -----

  datatype VetoError = InvalidProposalHash | AlreadyVetoed | DuplicateVote | InvalidSignature

  /** A new veto as its constructor leaves it; the error, if it is not recorded. */
  ghost function AddVeto(h: Hashes, env: Env, s: State, nProposalHash: Hash256, nTime: int, vchSig: seq<Byte>, fSignatureOk: bool)
    : (State, Option<VetoError>)
  {
    var key := h.veto(nProposalHash, nTime);
    if nProposalHash == 0 then (s, Some(InvalidProposalHash))
    else if HasVeto(s, nProposalHash) then (s, Some(AlreadyVetoed))
    else if key in s.mapSeenVetoVotes then (s, Some(DuplicateVote))
    else if !fSignatureOk then (s, Some(InvalidSignature))
    else
      var t := s.(mapSeenVetoVotes := s.mapSeenVetoVotes[key := Veto(nProposalHash, nTime, vchSig, true, false)]);
      (if nProposalHash in t.mapProposals then
         var p := t.mapProposals[nProposalHash];
         t.(mapProposals := t.mapProposals[nProposalHash := p.(fValid := ProposalValid(h, env, t, p))])
       else t, None)
  }

  ghost function AddProposal(h: Hashes, env: Env, s: State, p: Proposal): State {
    var key := h.terms(p.terms);
    if !ProposalValid(h, env, s, p) || key in s.mapProposals then s else s.(mapProposals := s.mapProposals[key := p])
  }

  ghost function AddFinalized(h: Hashes, env: Env, s: State, f: Finalized): State {
    var key := h.finalized(f.strBudgetName, f.nBlockStart, f.vecBudgetPayments);
    if !FinalizedValid(h, env, s, f) || key in s.mapFinalizedBudgets then s
    else s.(mapFinalizedBudgets := s.mapFinalizedBudgets[key := f])
  }

  /** A vote that is newer than the masternode's last one by an hour, and not from the future. */
  function VotesAfter(env: Env, votes: map<Hash256, Vote>, voter: Hash256, v: Vote): map<Hash256, Vote> {
    if (voter in votes && v.nTime - votes[voter].nTime < BUDGET_VOTE_UPDATE_MIN) || v.nTime > env.now + 60 * 60 then votes
    else votes[voter := v]
  }

  function VoteProposal(env: Env, s: State, key: Hash256, voter: Hash256, v: Vote): State {
    if key !in s.mapProposals then s
    else
      var p := s.mapProposals[key];
      s.(mapProposals := s.mapProposals[key := p.(mapVotes := VotesAfter(env, p.mapVotes, voter, v))])
  }

  function VoteFinalized(env: Env, s: State, key: Hash256, voter: Hash256, v: Vote): State {
    if key !in s.mapFinalizedBudgets then s
    else
      var f := s.mapFinalizedBudgets[key];
      s.(mapFinalizedBudgets := s.mapFinalizedBudgets[key := f.(mapVotes := VotesAfter(env, f.mapVotes, voter, v))])
  }

  /** CheckAndRemove: nothing is removed, but validity is computed anew. */
  ghost function Rechecked(h: Hashes, env: Env, s: State): State {
    s.(mapFinalizedBudgets := map k | k in s.mapFinalizedBudgets ::
         s.mapFinalizedBudgets[k].(fValid := FinalizedValid(h, env, s, s.mapFinalizedBudgets[k])),
       mapProposals := map k | k in s.mapProposals :: s.mapProposals[k].(fValid := ProposalValid(h, env, s, s.mapProposals[k])))
  }

  function ClearSeen(s: State): State {
    s.(seenProposals := {}, seenVotes := {}, seenFinalized := {}, seenFinalizedVotes := {})
  }

  function MarkSynced(s: State): State {
    s.(mapSeenVetoVotes := map k | k in s.mapSeenVetoVotes ::
         if s.mapSeenVetoVotes[k].fValid then s.mapSeenVetoVotes[k].(fSynced := true) else s.mapSeenVetoVotes[k])
  }

  /** Nothing counts as synchronised any more: no veto either, valid or not. */
  function ResetSync(s: State): State {
    s.(mapSeenVetoVotes := map k | k in s.mapSeenVetoVotes :: s.mapSeenVetoVotes[k].(fSynced := false))
  }

  datatype Op =
    | AddProposalOp(env: Env, p: Proposal)
    | AddFinalizedOp(env: Env, f: Finalized)
    | AddVetoOp(env: Env, nProposalHash: Hash256, nTime: int, vchSig: seq<Byte>, fSignatureOk: bool)
    | VoteProposalOp(env: Env, key: Hash256, voter: Hash256, vote: Vote)
    | VoteFinalizedOp(env: Env, key: Hash256, voter: Hash256, vote: Vote)
    | CheckAndRemoveOp(env: Env)
    | GetBudgetOp(env: Env, order: seq<Hash256>)
    | ClearSeenOp
    | MarkSyncedOp
    | ResetSyncOp
    | ClearOp

  ghost function Step(h: Hashes, s: State, op: Op): State {
    match op
    case AddProposalOp(env, p) => AddProposal(h, env, s, p)
    case AddFinalizedOp(env, f) => AddFinalized(h, env, s, f)
    case AddVetoOp(env, x, nTime, vchSig, ok) => AddVeto(h, env, s, x, nTime, vchSig, ok).0
    case VoteProposalOp(env, key, voter, v) => VoteProposal(env, s, key, voter, v)
    case VoteFinalizedOp(env, key, voter, v) => VoteFinalized(env, s, key, voter, v)
    case CheckAndRemoveOp(env) => Rechecked(h, env, s)
    case GetBudgetOp(env, order) => if Ranked(CleanedProposals(env, s.mapProposals), order) then GetBudget(h, env, s, order).0 else s
    case ClearSeenOp => ClearSeen(s)
    case MarkSyncedOp => MarkSynced(s)
    case ResetSyncOp => ResetSync(s)
    case ClearOp => Empty
  }

  ghost function Run(h: Hashes, s: State, ops: seq<Op>): State {
    if ops == [] then s else Step(h, Run(h, s, ops[..|ops| - 1]), ops[|ops| - 1])
  }

  /** A veto that is recorded: for a proposal without one, under a new key, and signed. */
  ghost predicate VetoAccepted(h: Hashes, s: State, x: Hash256, nTime: int, fSignatureOk: bool) {
    x != 0 && !HasVeto(s, x) && h.veto(x, nTime) !in s.mapSeenVetoVotes && fSignatureOk
  }

  /** Exactly such a veto is recorded, valid and as it was signed; any other leaves the state as it was, with the first error. */
  lemma OnlySignedVetoes(h: Hashes, env: Env, s: State, x: Hash256, nTime: int, vchSig: seq<Byte>, fSignatureOk: bool)
    ensures var (t, error) := AddVeto(h, env, s, x, nTime, vchSig, fSignatureOk); var key := h.veto(x, nTime);
      && (error.None? <==> VetoAccepted(h, s, x, nTime, fSignatureOk))
      && (error.None? ==> t.mapSeenVetoVotes == s.mapSeenVetoVotes[key := Veto(x, nTime, vchSig, true, false)])
      && (error.Some? ==> t == s)
      && (error == Some(InvalidProposalHash) <==> x == 0)
      && (error == Some(AlreadyVetoed) <==> x != 0 && HasVeto(s, x))
      && (error == Some(DuplicateVote) <==> x != 0 && !HasVeto(s, x) && key in s.mapSeenVetoVotes)
  {
    hide ProposalValid, HasVeto;
  }

  /** A veto with a good signature is recorded, unless the proposal is vetoed already; no other step records one. */
  lemma VetoIsRecorded(h: Hashes, env: Env, s: State, x: Hash256, nTime: int, vchSig: seq<Byte>, fSignatureOk: bool, y: Hash256)
    ensures var (t, error) := AddVeto(h, env, s, x, nTime, vchSig, fSignatureOk);
      && (HasVeto(t, y) <==> HasVeto(s, y) || (error.None? && y == x))
      && (error.None? && x in t.mapProposals && h.terms(t.mapProposals[x].terms) == x && env.TipHeight() >= env.vetoForkHeight ==>
          !t.mapProposals[x].fValid)
  {
    hide ProposalValid;
    var (t, error) := AddVeto(h, env, s, x, nTime, vchSig, fSignatureOk);
    var key := h.veto(x, nTime);
    var added := s.(mapSeenVetoVotes := s.mapSeenVetoVotes[key := Veto(x, nTime, vchSig, true, false)]);
    if error.None? {
      OneMoreVeto(s, added, key, y);
      OneMoreVeto(s, added, key, x);
      SameVetoes(added, t, y);
      if x in s.mapProposals { VetoedIsInvalid(h, env, added, s.mapProposals[x]); }
    }
  }

  lemma OneMoreVeto(s: State, t: State, key: Hash256, y: Hash256)
    requires key !in s.mapSeenVetoVotes && key in t.mapSeenVetoVotes && t.mapSeenVetoVotes[key].fValid
    requires t.mapSeenVetoVotes == s.mapSeenVetoVotes[key := t.mapSeenVetoVotes[key]]
    ensures HasVeto(t, y) <==> HasVeto(s, y) || y == t.mapSeenVetoVotes[key].nProposalHash
  {
    if HasVeto(s, y) {
      var k :| k in s.mapSeenVetoVotes && s.mapSeenVetoVotes[k].nProposalHash == y && s.mapSeenVetoVotes[k].fValid;
      assert t.mapSeenVetoVotes[k] == s.mapSeenVetoVotes[k];
    }
    if y == t.mapSeenVetoVotes[key].nProposalHash { assert key in t.mapSeenVetoVotes; }
  }

  lemma VetoedIsInvalid(h: Hashes, env: Env, s: State, p: Proposal)
    ensures ProposalValid(h, env, s, p) ==> !IsVetoed(env, s, h.terms(p.terms), env.TipHeight())
  {}

  lemma StepKeepsVetoes(h: Hashes, s: State, op: Op, x: Hash256)
    requires HasVeto(s, x) && op != ClearOp
    ensures HasVeto(Step(h, s, op), x)
  {
    hide ProposalValid, FinalizedValid, GetBudget, HasVeto, Ranked;
    match op
    case AddVetoOp(env, y, nTime, vchSig, ok) => VetoIsRecorded(h, env, s, y, nTime, vchSig, ok, x);
    case GetBudgetOp(env, order) => BudgetKeepsVetoes(h, env, s, order, x);
    case MarkSyncedOp => SyncedKeepsVetoes(s, x);
    case ResetSyncOp => ResetKeepsVetoes(s, x);
    case AddProposalOp(_, _) => SameVetoes(s, Step(h, s, op), x);
    case AddFinalizedOp(_, _) => SameVetoes(s, Step(h, s, op), x);
    case VoteProposalOp(_, _, _, _) => SameVetoes(s, Step(h, s, op), x);
    case VoteFinalizedOp(_, _, _, _) => SameVetoes(s, Step(h, s, op), x);
    case CheckAndRemoveOp(_) => SameVetoes(s, Step(h, s, op), x);
    case ClearSeenOp => SameVetoes(s, Step(h, s, op), x);
  }

  /** Some step of a run brought this veto, with a good signature. */
  ghost predicate Signed(h: Hashes, ops: seq<Op>, k: Hash256, v: Veto) {
    exists i :: 0 <= i < |ops| && Brings(h, ops[i], k, v)
  }

  predicate Brings(h: Hashes, op: Op, k: Hash256, v: Veto) {
    op.AddVetoOp? && op.fSignatureOk && op.nProposalHash == v.nProposalHash != 0 && op.nTime == v.nTime && op.vchSig == v.vchSig
    && h.veto(v.nProposalHash, v.nTime) == k
  }

  /** Up to whether it counts as synchronised. */
  predicate SameVeto(v: Veto, w: Veto) {
    w == v.(fSynced := w.fSynced)
  }

  lemma StepBringsVetoes(h: Hashes, s: State, op: Op)
    ensures forall k :: k in Step(h, s, op).mapSeenVetoVotes ==>
      || (k in s.mapSeenVetoVotes && SameVeto(s.mapSeenVetoVotes[k], Step(h, s, op).mapSeenVetoVotes[k]))
      || (Step(h, s, op).mapSeenVetoVotes[k].fValid && Brings(h, op, k, Step(h, s, op).mapSeenVetoVotes[k]))
  {
    hide ProposalValid, FinalizedValid, Ranked, Allotted, HasVeto;
    if op.AddVetoOp? { OnlySignedVetoes(h, op.env, s, op.nProposalHash, op.nTime, op.vchSig, op.fSignatureOk); }
  }

  /** In every state reached, each recorded veto is valid and came with a good signature. */
  lemma {:induction false} VetoesAreSigned(h: Hashes, ops: seq<Op>, k: Hash256)
    requires k in Run(h, Empty, ops).mapSeenVetoVotes
    ensures Run(h, Empty, ops).mapSeenVetoVotes[k].fValid && Signed(h, ops, k, Run(h, Empty, ops).mapSeenVetoVotes[k])
  {
    hide Step;
    if ops != [] {
      var n := |ops| - 1;
      var s, op := Run(h, Empty, ops[..n]), ops[n];
      StepBringsVetoes(h, s, op);
      var v := Step(h, s, op).mapSeenVetoVotes[k];
      if k in s.mapSeenVetoVotes && SameVeto(s.mapSeenVetoVotes[k], v) {
        VetoesAreSigned(h, ops[..n], k);
        var i :| 0 <= i < n && Brings(h, ops[..n][i], k, s.mapSeenVetoVotes[k]);
        assert Brings(h, ops[i], k, v);
      }
    }
  }

  lemma BudgetKeepsVetoes(h: Hashes, env: Env, s: State, order: seq<Hash256>, x: Hash256)
    ensures Ranked(CleanedProposals(env, s.mapProposals), order) ==> HasVeto(GetBudget(h, env, s, order).0, x) == HasVeto(s, x)
  {
    if Ranked(CleanedProposals(env, s.mapProposals), order) {
      SameVetoes(s, GetBudget(h, env, s, order).0, x);
    }
  }

  lemma SyncedKeepsVetoes(s: State, x: Hash256)
    requires HasVeto(s, x)
    ensures HasVeto(MarkSynced(s), x)
  {
    var k :| k in s.mapSeenVetoVotes && s.mapSeenVetoVotes[k].nProposalHash == x && s.mapSeenVetoVotes[k].fValid;
    var v := MarkSynced(s).mapSeenVetoVotes[k];
    assert v.nProposalHash == x && v.fValid;
  }

  lemma ResetKeepsVetoes(s: State, x: Hash256)
    requires HasVeto(s, x)
    ensures HasVeto(ResetSync(s), x)
  {
    var k :| k in s.mapSeenVetoVotes && s.mapSeenVetoVotes[k].nProposalHash == x && s.mapSeenVetoVotes[k].fValid;
    var v := ResetSync(s).mapSeenVetoVotes[k];
    assert v.nProposalHash == x && v.fValid;
  }

  /** A veto survives every run of steps other than Clear. */
  lemma {:induction false} VetoIsPermanent(h: Hashes, s: State, ops: seq<Op>, x: Hash256)
    requires HasVeto(s, x) && forall i :: 0 <= i < |ops| ==> ops[i] != ClearOp
    ensures HasVeto(Run(h, s, ops), x)
  {
    hide HasVeto, Step;
    if ops != [] {
      VetoIsPermanent(h, s, ops[..|ops| - 1], x);
      StepKeepsVetoes(h, Run(h, s, ops[..|ops| - 1]), ops[|ops| - 1], x);
    }
  }

  /**
    After a veto has been recorded, and whatever follows short of Clear, no budget for a cycle from the fork
    height on contains the proposal, and no finalized budget pays it at a block from that height on.
    */
  lemma VetoedIsNeverPaid(h: Hashes, s: State, ops: seq<Op>, x: Hash256, env: Env, order: seq<Hash256>, f: Finalized, nBlockHeight: int)
    requires HasVeto(s, x) && (forall i :: 0 <= i < |ops| ==> ops[i] != ClearOp)
    requires env.tip.Some? && env.NextStart() >= env.vetoForkHeight && nBlockHeight >= env.vetoForkHeight
    requires Ranked(CleanedProposals(env, Run(h, s, ops).mapProposals), order)
    ensures var s' := Run(h, s, ops); var (t, ret) := GetBudget(h, env, s', order);
      && (forall i :: 0 <= i < |ret| ==> ret[i] in t.mapProposals && h.terms(t.mapProposals[ret[i]].terms) != x)
      && (Payable(env, s', f, nBlockHeight) ==> f.PaymentAt(nBlockHeight).Some? && f.PaymentAt(nBlockHeight).value.nProposalHash != x)
  {
    hide HasVeto, Step, Ranked, Env.NextStart, Proposal.Net, Env.Established, GetBudget;
    VetoIsPermanent(h, s, ops, x);
    BudgetFits(h, env, Run(h, s, ops), order);
  }
}
