/** masternode-payments.cpp: the votes for who is paid at a height, and the tally kept beside them. */
module MasternodePayments {
  import opened Coins
  import opened Prelude

  const SIGNATURES_REQUIRED := 6

  datatype OutPoint = OutPoint(hash: Hash256, n: nat)

  datatype Winner = Winner(vinMasternode: OutPoint, nBlockHeight: int, payee: Script, vchSig: seq<Byte>)

  /** CMasternodePaymentWinner::GetHash: payee, height and outpoint, but not the signature. */
  type VoteHash = (Script, int, OutPoint) -> Hash256

  function HashOf(hash: VoteHash, w: Winner): Hash256 {
    hash(w.payee, w.nBlockHeight, w.vinMasternode)
  }

  datatype Payee = Payee(scriptPubKey: Script, nVotes: int)

  datatype BlockPayees = BlockPayees(nBlockHeight: int, vecPayments: seq<Payee>)

  type Votes = map<Hash256, Winner>
  type Blocks = map<int, BlockPayees>

  datatype Payments = Payments(votes: Votes, blocks: Blocks)

  // ----- One block's payees -----

  /** The index of the first entry for a script; the length if there is none. */
  function IndexOfPayee(vec: seq<Payee>, script: Script, i: nat): (r: nat)
    requires i <= |vec|
    ensures i <= r <= |vec| && (r < |vec| ==> vec[r].scriptPubKey == script)
    ensures forall k :: i <= k < r ==> vec[k].scriptPubKey != script
    decreases |vec| - i
  {
    if i == |vec| || vec[i].scriptPubKey == script then i else IndexOfPayee(vec, script, i + 1)
  }

  function AddPayee(vec: seq<Payee>, script: Script, nIncrement: int): seq<Payee> {
    var i := IndexOfPayee(vec, script, 0);
    if i < |vec| then vec[i := vec[i].(nVotes := vec[i].nVotes + nIncrement)] else vec + [Payee(script, nIncrement)]
  }

  /** The votes that a list records for a script. */
  function Tally(vec: seq<Payee>, script: Script): int {
    var i := IndexOfPayee(vec, script, 0);
    if i < |vec| then vec[i].nVotes else 0
  }

  ghost predicate DistinctPayees(vec: seq<Payee>) {
    forall i, j :: 0 <= i < j < |vec| ==> vec[i].scriptPubKey != vec[j].scriptPubKey
  }

  ghost predicate AllVoted(vec: seq<Payee>) {
    forall i :: 0 <= i < |vec| ==> vec[i].nVotes >= 1
  }

  lemma TallyAt(vec: seq<Payee>, i: nat)
    requires DistinctPayees(vec) && i < |vec|
    ensures Tally(vec, vec[i].scriptPubKey) == vec[i].nVotes
  {}

  lemma AddPayeeCounts(vec: seq<Payee>, script: Script, other: Script)
    requires DistinctPayees(vec) && AllVoted(vec)
    ensures var r := AddPayee(vec, script, 1);
      DistinctPayees(r) && AllVoted(r) && Tally(r, other) == Tally(vec, other) + if other == script then 1 else 0
  {
    var r := AddPayee(vec, script, 1);
    var i := IndexOfPayee(vec, script, 0);
    FindUnique(r, script, i);
    if other != script {
      var k := IndexOfPayee(vec, other, 0);
      if k < |vec| {
        FindUnique(r, other, k);
      }
    }
  }

  lemma FindUnique(vec: seq<Payee>, script: Script, i: nat)
    requires DistinctPayees(vec) && i < |vec| && vec[i].scriptPubKey == script
    ensures IndexOfPayee(vec, script, 0) == i
  {}

  // ----- The transitions -----

  function AddWinner(hash: VoteHash, s: Payments, w: Winner, fBlockKnown: bool): (Payments, bool) {
    var key := HashOf(hash, w);
    if !fBlockKnown || key in s.votes then (s, false)
    else
      var old_ := if w.nBlockHeight in s.blocks then s.blocks[w.nBlockHeight] else BlockPayees(w.nBlockHeight, []);
      (Payments(s.votes[key := w], s.blocks[w.nBlockHeight := old_.(vecPayments := AddPayee(old_.vecPayments, w.payee, 1))]), true)
  }

  predicate Expired(w: Winner, nHeight: int, nLimit: int) {
    nHeight - w.nBlockHeight > nLimit
  }

  function Cleaned(s: Payments, nHeight: int, nLimit: int): Payments {
    Without(s, set k | k in s.votes && Expired(s.votes[k], nHeight, nLimit))
  }

  /** The votes are gone, and the tallies of their heights. */
  function Without(s: Payments, gone: set<Hash256>): Payments
    requires gone <= s.votes.Keys
  {
    Payments(s.votes - gone, s.blocks - set k | k in gone :: s.votes[k].nBlockHeight)
  }

  lemma WithoutNone(s: Payments)
    ensures Without(s, {}) == s
  {}

  lemma WithoutExpired(s: Payments, gone: set<Hash256>, nHeight: int, nLimit: int)
    requires gone <= s.votes.Keys && forall k :: k in s.votes ==> (k in gone <==> Expired(s.votes[k], nHeight, nLimit))
    ensures Without(s, gone) == Cleaned(s, nHeight, nLimit)
  {
    assert gone == set k | k in s.votes && Expired(s.votes[k], nHeight, nLimit);
  }

  lemma WithoutOneMore(s: Payments, gone: set<Hash256>, key: Hash256)
    requires gone <= s.votes.Keys && key in s.votes && key !in gone
    ensures key in Without(s, gone).votes && Without(s, gone).votes[key] == s.votes[key]
    ensures Without(s, gone + {key}).votes == Without(s, gone).votes - {key}
    ensures Without(s, gone + {key}).blocks == Without(s, gone).blocks - {s.votes[key].nBlockHeight}
  {}

  const Empty := Payments(map[], map[])

  // ----- The invariant -----

  /** The recorded votes for a payee at a height. */
  ghost function VotesFor(votes: Votes, height: int, script: Script): set<Hash256> {
    set k | k in votes && votes[k].nBlockHeight == height && votes[k].payee == script
  }

  function TallyOf(blocks: Blocks, height: int, script: Script): int {
    if height in blocks then Tally(blocks[height].vecPayments, script) else 0
  }

  ghost predicate BlockOk(blocks: Blocks, height: int)
    requires height in blocks
  {
    var b := blocks[height];
    b.nBlockHeight == height && DistinctPayees(b.vecPayments) && AllVoted(b.vecPayments)
  }

  ghost predicate Tallied(s: Payments, height: int, script: Script) {
    TallyOf(s.blocks, height, script) == |VotesFor(s.votes, height, script)|
  }

  ghost predicate Inv(hash: VoteHash, s: Payments) {
    && (forall k :: k in s.votes ==> HashOf(hash, s.votes[k]) == k)
    && (forall h {:trigger BlockOk(s.blocks, h)} :: h in s.blocks ==> BlockOk(s.blocks, h))
    && (forall h, script {:trigger Tallied(s, h, script)} :: Tallied(s, h, script))
  }

  /** The vote is for this height and payee. */
  predicate IsFor(w: Winner, height: int, script: Script) {
    w.nBlockHeight == height && w.payee == script
  }

  lemma VotesMove(votes: Votes, key: Hash256, w: Winner, height: int, script: Script)
    requires key !in votes
    ensures |VotesFor(votes[key := w], height, script)| == |VotesFor(votes, height, script)| + if IsFor(w, height, script) then 1 else 0
  {
    assert VotesFor(votes[key := w], height, script) == VotesFor(votes, height, script) + if IsFor(w, height, script) then {key} else {};
  }

  lemma AddWinnerKeepsInv(hash: VoteHash, s: Payments, w: Winner, fBlockKnown: bool)
    requires Inv(hash, s)
    ensures Inv(hash, AddWinner(hash, s, w, fBlockKnown).0)
  {
    var (t, added) := AddWinner(hash, s, w, fBlockKnown);
    if added {
      var key, height := HashOf(hash, w), w.nBlockHeight;
      var vec := if height in s.blocks then s.blocks[height].vecPayments else [];
      assert height in s.blocks ==> BlockOk(s.blocks, height);
      AddPayeeCounts(vec, w.payee, w.payee);
      forall h | h in t.blocks ensures BlockOk(t.blocks, h) { if h != height { assert BlockOk(s.blocks, h); } }
      forall h, script ensures Tallied(t, h, script) {
        assert Tallied(s, h, script);
        VotesMove(s.votes, key, w, h, script);
        if h == height { AddPayeeCounts(vec, w.payee, script); }
      }
    }
  }

  /** A vote that is not recorded yet, for a block the chain knows. */
  predicate IsNew(hash: VoteHash, s: Payments, w: Winner, fBlockKnown: bool) {
    fBlockKnown && HashOf(hash, w) !in s.votes
  }

  /** t has one vote more than s, under its key, and one more in the tally of its height and payee; nothing else moves. */
  ghost predicate OneVoteMore(s: Payments, t: Payments, key: Hash256, w: Winner) {
    && key !in s.votes && t.votes == s.votes[key := w]
    && (forall height, script :: |VotesFor(t.votes, height, script)| ==
          |VotesFor(s.votes, height, script)| + if IsFor(w, height, script) then 1 else 0)
    && (forall height, script :: TallyOf(t.blocks, height, script) ==
          TallyOf(s.blocks, height, script) + if IsFor(w, height, script) then 1 else 0)
  }

  /** Exactly a new vote is recorded and counted; anything else is refused and leaves no trace. */
  lemma NewVoteIsCounted(hash: VoteHash, s: Payments, w: Winner, fBlockKnown: bool)
    requires Inv(hash, s)
    ensures var (t, added) := AddWinner(hash, s, w, fBlockKnown);
      && (added <==> IsNew(hash, s, w, fBlockKnown))
      && (added ==> OneVoteMore(s, t, HashOf(hash, w), w))
      && (!added ==> t == s)
  {
    hide Inv, VotesFor, Tally, AddPayee;
    var (t, added) := AddWinner(hash, s, w, fBlockKnown);
    if added {
      AddWinnerKeepsInv(hash, s, w, fBlockKnown);
      forall height, script
        ensures |VotesFor(t.votes, height, script)| == |VotesFor(s.votes, height, script)| + if IsFor(w, height, script) then 1 else 0
        ensures TallyOf(t.blocks, height, script) == TallyOf(s.blocks, height, script) + if IsFor(w, height, script) then 1 else 0
      {
        VotesMove(s.votes, HashOf(hash, w), w, height, script);
        TalliesMatch(hash, s, height, script);
        TalliesMatch(hash, t, height, script);
      }
    }
  }

  lemma TalliesMatch(hash: VoteHash, s: Payments, height: int, script: Script)
    requires Inv(hash, s)
    ensures TallyOf(s.blocks, height, script) == |VotesFor(s.votes, height, script)|
  {
    assert Tallied(s, height, script);
  }

  /** Whether a vote is old depends on its height alone, so a tally goes together with all its votes. */
  lemma CleanedKeepsInv(hash: VoteHash, s: Payments, nHeight: int, nLimit: int)
    requires Inv(hash, s)
    ensures Inv(hash, Cleaned(s, nHeight, nLimit))
  {
    var t := Cleaned(s, nHeight, nLimit);
    forall h | h in t.blocks ensures BlockOk(t.blocks, h) { assert BlockOk(s.blocks, h); }
    forall h, script ensures Tallied(t, h, script) {
      assert Tallied(s, h, script);
      if nHeight - h > nLimit {
        assert VotesFor(t.votes, h, script) == {};
        if h in t.blocks {
          NoVotesNoPayees(hash, s, h);
        }
      } else {
        assert VotesFor(t.votes, h, script) == VotesFor(s.votes, h, script);
      }
    }
  }

  /** What is at most nLimit blocks old stays, with its tally; of what is older nothing is left. */
  lemma CleanedKeepsRecent(hash: VoteHash, s: Payments, nHeight: int, nLimit: int, height: int, script: Script)
    requires Inv(hash, s)
    ensures var t := Cleaned(s, nHeight, nLimit);
      && (forall k :: k in t.votes <==> k in s.votes && s.votes[k].nBlockHeight >= nHeight - nLimit)
      && (forall k :: k in t.votes ==> t.votes[k] == s.votes[k])
      && TallyOf(t.blocks, height, script) == if height >= nHeight - nLimit then TallyOf(s.blocks, height, script) else 0
  {
    hide Inv, TallyOf;
    var t := Cleaned(s, nHeight, nLimit);
    CleanedKeepsInv(hash, s, nHeight, nLimit);
    TalliesMatch(hash, s, height, script);
    TalliesMatch(hash, t, height, script);
    assert VotesFor(t.votes, height, script) == if height >= nHeight - nLimit then VotesFor(s.votes, height, script) else {};
  }

  /** A height without votes has no payees. */
  lemma NoVotesNoPayees(hash: VoteHash, s: Payments, h: int)
    requires Inv(hash, s) && h in s.blocks && forall k :: k in s.votes ==> s.votes[k].nBlockHeight != h
    ensures s.blocks[h].vecPayments == []
  {
    forall script ensures VotesFor(s.votes, h, script) == {} {}
    assert BlockOk(s.blocks, h);
    var vec := s.blocks[h].vecPayments;
    forall script ensures Tally(vec, script) == 0 { assert Tallied(s, h, script); }
    if vec != [] { TallyAt(vec, 0); }
  }

  datatype Op = AddOp(winner: Winner, fBlockKnown: bool) | CleanOp(nHeight: int, nLimit: int) | ClearOp

  function Step(hash: VoteHash, s: Payments, op: Op): Payments {
    match op
    case AddOp(w, known) => AddWinner(hash, s, w, known).0
    case CleanOp(nHeight, nLimit) => Cleaned(s, nHeight, nLimit)
    case ClearOp => Empty
  }

  function Run(hash: VoteHash, ops: seq<Op>): Payments {
    if ops == [] then Empty else Step(hash, Run(hash, ops[..|ops| - 1]), ops[|ops| - 1])
  }

  lemma EmptyIsOk(hash: VoteHash)
    ensures Inv(hash, Empty)
  {
    forall h, script ensures Tallied(Empty, h, script) { assert VotesFor(Empty.votes, h, script) == {}; }
  }

  /** In every state reached the tally is the number of recorded votes, for each height and payee. */
  lemma {:induction false} TallyMatchesTheVotes(hash: VoteHash, ops: seq<Op>)
    ensures Inv(hash, Run(hash, ops))
  {
    if ops == [] {
      EmptyIsOk(hash);
    } else {
      var s := Run(hash, ops[..|ops| - 1]);
      TallyMatchesTheVotes(hash, ops[..|ops| - 1]);
      match ops[|ops| - 1]
      case AddOp(w, known) => AddWinnerKeepsInv(hash, s, w, known);
      case CleanOp(nHeight, nLimit) => CleanedKeepsInv(hash, s, nHeight, nLimit);
      case ClearOp => EmptyIsOk(hash);
    }
  }

  ghost predicate Injective(hash: VoteHash) {
    forall p, h, o, p', h', o' :: hash(p, h, o) == hash(p', h', o') ==> p == p' && h == h' && o == o'
  }

  ghost function Voters(votes: Votes, height: int, script: Script): set<OutPoint> {
    set k | k in VotesFor(votes, height, script) :: votes[k].vinMasternode
  }

  /** Without hash collisions the tally is the number of different masternodes that voted so. */
  lemma TallyCountsMasternodes(hash: VoteHash, s: Payments, height: int, script: Script)
    requires Inv(hash, s) && Injective(hash)
    ensures TallyOf(s.blocks, height, script) == |Voters(s.votes, height, script)|
  {
    assert Tallied(s, height, script);
    var votes := VotesFor(s.votes, height, script);
    forall k, l | k in votes && l in votes && s.votes[k].vinMasternode == s.votes[l].vinMasternode ensures k == l {
      assert HashOf(hash, s.votes[k]) == k && HashOf(hash, s.votes[l]) == l;
    }
    SameCount(s.votes, votes, Voters(s.votes, height, script));
  }

  lemma {:induction false} SameCount(votes: Votes, keys: set<Hash256>, voters: set<OutPoint>)
    requires keys <= votes.Keys && voters == set k | k in keys :: votes[k].vinMasternode
    requires forall k, l :: k in keys && l in keys && votes[k].vinMasternode == votes[l].vinMasternode ==> k == l
    ensures |keys| == |voters|
    decreases |keys|
  {
    if keys != {} {
      var k :| k in keys;
      var keys' := keys - {k};
      var voters' := set l | l in keys' :: votes[l].vinMasternode;
      SameCount(votes, keys', voters');
      assert votes[k].vinMasternode !in voters';
      assert voters == voters' + {votes[k].vinMasternode};
    } else {
      assert voters == {};
    }
  }

  // ----- Reading -----

  /** A payee with the most votes, the first one of those; None if nobody has any. */
  ghost predicate IsWinner(vec: seq<Payee>, r: Option<Script>) {
    match r
    case None => forall i :: 0 <= i < |vec| ==> vec[i].nVotes <= -1
    case Some(script) =>
      exists i :: 0 <= i < |vec| && vec[i].scriptPubKey == script && vec[i].nVotes > -1
        && (forall j :: 0 <= j < |vec| ==> vec[j].nVotes <= vec[i].nVotes)
        && (forall j :: 0 <= j < i ==> vec[j].nVotes < vec[i].nVotes)
  }

  method GetPayee(vec: seq<Payee>) returns (r: Option<Script>)
    ensures IsWinner(vec, r)
  {
    var nVotes := -1;
    r := None;
    ghost var best := -1;
    for i := 0 to |vec|
      invariant nVotes >= -1 && (r.None? <==> nVotes == -1)
      invariant forall j :: 0 <= j < i ==> vec[j].nVotes <= nVotes
      invariant r.Some? ==> 0 <= best < i && vec[best] == Payee(r.value, nVotes) && forall j :: 0 <= j < best ==> vec[j].nVotes < nVotes
    {
      if vec[i].nVotes > nVotes {
        r := Some(vec[i].scriptPubKey);
        nVotes := vec[i].nVotes;
        best := i;
      }
    }
  }

  /** By the votes themselves: the payee of a block is one with the most votes, if there is any vote at all. */
  lemma WinnerHasMostVotes(hash: VoteHash, s: Payments, height: int, r: Option<Script>, script: Script)
    requires Inv(hash, s) && height in s.blocks && IsWinner(s.blocks[height].vecPayments, r)
    ensures r.Some? ==> |VotesFor(s.votes, height, r.value)| >= 1
    ensures |VotesFor(s.votes, height, script)| <= if r.Some? then |VotesFor(s.votes, height, r.value)| else 0
  {
    var vec := s.blocks[height].vecPayments;
    assert BlockOk(s.blocks, height);
    assert Tallied(s, height, script);
    if r.Some? {
      assert Tallied(s, height, r.value);
      var i :| 0 <= i < |vec| && vec[i].scriptPubKey == r.value && forall j :: 0 <= j < |vec| ==> vec[j].nVotes <= vec[i].nVotes;
      TallyAt(vec, i);
    }
  }

  ghost predicate HasPayee(vec: seq<Payee>, script: Script, nVotesReq: int) {
    exists i :: 0 <= i < |vec| && vec[i].scriptPubKey == script && vec[i].nVotes >= nVotesReq
  }

  method HasPayeeWithVotes(vec: seq<Payee>, script: Script, nVotesReq: int) returns (r: bool)
    ensures r <==> HasPayee(vec, script, nVotesReq)
  {
    for i := 0 to |vec|
      invariant forall k :: 0 <= k < i ==> !(vec[k].scriptPubKey == script && vec[k].nVotes >= nVotesReq)
    {
      if vec[i].nVotes >= nVotesReq && vec[i].scriptPubKey == script {
        return true;
      }
    }
    return false;
  }

  ghost predicate Pays(vout: seq<TxOut>, script: Script, required: int) {
    exists i :: 0 <= i < |vout| && vout[i].scriptPubKey == script && vout[i].nValue >= required
  }

  /** No payee has enough signatures, or one that has is paid what is required. */
  ghost predicate PaymentOk(vec: seq<Payee>, vout: seq<TxOut>, required: int) {
    || (forall i :: 0 <= i < |vec| ==> vec[i].nVotes < SIGNATURES_REQUIRED)
    || (exists i :: 0 <= i < |vec| && vec[i].nVotes >= SIGNATURES_REQUIRED && Pays(vout, vec[i].scriptPubKey, required))
  }

  /** CMasternodeBlockPayees::IsTransactionValid; the required amount depends on the network's state. */
  method IsTransactionValid(vec: seq<Payee>, vout: seq<TxOut>, requiredMasternodePayment: int) returns (ok: bool)
    ensures ok <==> PaymentOk(vec, vout, requiredMasternodePayment)
  {
    var nMaxSignatures := 0;
    for i := 0 to |vec|
      invariant nMaxSignatures == 0 || nMaxSignatures >= SIGNATURES_REQUIRED
      invariant nMaxSignatures == 0 <==> forall k :: 0 <= k < i ==> vec[k].nVotes < SIGNATURES_REQUIRED
    {
      if vec[i].nVotes >= nMaxSignatures && vec[i].nVotes >= SIGNATURES_REQUIRED {
        nMaxSignatures := vec[i].nVotes;
      }
    }
    if nMaxSignatures < SIGNATURES_REQUIRED {
      return true;
    }
    for i := 0 to |vec|
      invariant forall k :: 0 <= k < i ==> !(vec[k].nVotes >= SIGNATURES_REQUIRED && Pays(vout, vec[k].scriptPubKey, requiredMasternodePayment))
    {
      var found := false;
      for j := 0 to |vout|
        invariant found <==> exists k :: 0 <= k < j && vout[k].scriptPubKey == vec[i].scriptPubKey && vout[k].nValue >= requiredMasternodePayment
      {
        if vec[i].scriptPubKey == vout[j].scriptPubKey && vout[j].nValue >= requiredMasternodePayment {
          found := true;
        }
      }
      if vec[i].nVotes >= SIGNATURES_REQUIRED && found {
        return true;
      }
    }
    return false;
  }

  /** The rule in terms of the votes: payees need the votes of six, and one of those with them must be paid. */
  lemma PaymentRule(hash: VoteHash, s: Payments, height: int, vout: seq<TxOut>, required: int)
    requires Inv(hash, s) && height in s.blocks
    ensures PaymentOk(s.blocks[height].vecPayments, vout, required) <==>
      || (forall script :: |VotesFor(s.votes, height, script)| < SIGNATURES_REQUIRED)
      || (exists script :: |VotesFor(s.votes, height, script)| >= SIGNATURES_REQUIRED && Pays(vout, script, required))
  {
    var vec := s.blocks[height].vecPayments;
    assert BlockOk(s.blocks, height);
    forall i | 0 <= i < |vec| ensures |VotesFor(s.votes, height, vec[i].scriptPubKey)| == vec[i].nVotes {
      TallyAt(vec, i);
      assert Tallied(s, height, vec[i].scriptPubKey);
    }
    forall script | |VotesFor(s.votes, height, script)| >= SIGNATURES_REQUIRED
      ensures exists i :: 0 <= i < |vec| && vec[i].scriptPubKey == script && vec[i].nVotes >= SIGNATURES_REQUIRED
    {
      assert Tallied(s, height, script);
      var i := IndexOfPayee(vec, script, 0);
      assert vec[i].scriptPubKey == script;
    }
  }

  // ----- The object -----

  class CMasternodePayments {
    const hash: VoteHash
    var mapMasternodePayeeVotes: Votes
    var mapMasternodeBlocks: Blocks

    ghost function Abs(): Payments
      reads this
    {
      Payments(mapMasternodePayeeVotes, mapMasternodeBlocks)
    }

    constructor (hash: VoteHash)
      ensures this.hash == hash && Abs() == Empty && Inv(hash, Abs())
    {
      this.hash := hash;
      mapMasternodePayeeVotes, mapMasternodeBlocks := map[], map[];
      new;
      EmptyIsOk(hash);
    }

    method Clear()
      modifies this
      ensures Abs() == Empty
    {
      mapMasternodeBlocks := map[];
      mapMasternodePayeeVotes := map[];
    }

    /** The look-up of the block a hundred below the vote's height is an input. */
    method AddWinningMasternode(winnerIn: Winner, fBlockKnown: bool) returns (added: bool)
      requires Inv(hash, Abs())
      modifies this
      ensures (Abs(), added) == AddWinner(hash, old(Abs()), winnerIn, fBlockKnown) && Inv(hash, Abs())
      ensures added <==> IsNew(hash, old(Abs()), winnerIn, fBlockKnown)
      ensures if added then OneVoteMore(old(Abs()), Abs(), HashOf(hash, winnerIn), winnerIn) else Abs() == old(Abs())
    {
      hide Inv, AddPayee, OneVoteMore;
      ghost var s := Abs();
      AddWinnerKeepsInv(hash, s, winnerIn, fBlockKnown);
      NewVoteIsCounted(hash, s, winnerIn, fBlockKnown);
      if !fBlockKnown {
        return false;
      }
      if HashOf(hash, winnerIn) in mapMasternodePayeeVotes {
        return false;
      }
      mapMasternodePayeeVotes := mapMasternodePayeeVotes[HashOf(hash, winnerIn) := winnerIn];
      if winnerIn.nBlockHeight !in mapMasternodeBlocks {
        mapMasternodeBlocks := mapMasternodeBlocks[winnerIn.nBlockHeight := BlockPayees(winnerIn.nBlockHeight, [])];
      }
      var block := mapMasternodeBlocks[winnerIn.nBlockHeight];
      var vec := AddPayeeLoop(block.vecPayments, winnerIn.payee, 1);
      mapMasternodeBlocks := mapMasternodeBlocks[winnerIn.nBlockHeight := block.(vecPayments := vec)];
      assert mapMasternodeBlocks == s.blocks[winnerIn.nBlockHeight := block.(vecPayments := vec)];
      return true;
    }

    method AddPayeeLoop(vec: seq<Payee>, payeeIn: Script, nIncrement: int) returns (r: seq<Payee>)
      ensures r == AddPayee(vec, payeeIn, nIncrement)
    {
      var i := 0;
      while i < |vec|
        invariant i <= |vec| && IndexOfPayee(vec, payeeIn, 0) == IndexOfPayee(vec, payeeIn, i)
      {
        if vec[i].scriptPubKey == payeeIn {
          return vec[i := vec[i].(nVotes := vec[i].nVotes + nIncrement)];
        }
        i := i + 1;
      }
      return vec + [Payee(payeeIn, nIncrement)];
    }

    /** Five cycles of history, but at least a thousand blocks, are kept; without a tip nothing happens. */
    method CleanPaymentList(nTip: Option<int>, nMasternodes: nat)
      requires Inv(hash, Abs())
      modifies this
      ensures var nLimit := if nMasternodes * 5 / 4 > 1000 then nMasternodes * 5 / 4 else 1000;
        Abs() == if nTip.None? then old(Abs()) else Cleaned(old(Abs()), nTip.value, nLimit)
      ensures Inv(hash, Abs())
    {
      if nTip.None? {
        return;
      }
      var nHeight := nTip.value;
      var nLimit := if nMasternodes * 5 / 4 > 1000 then nMasternodes * 5 / 4 else 1000;
      hide Inv, Cleaned;
      CleanedKeepsInv(hash, Abs(), nHeight, nLimit);
      RemoveExpired(nHeight, nLimit);
    }

    method RemoveExpired(nHeight: int, nLimit: int)
      modifies this
      ensures Abs() == Cleaned(old(Abs()), nHeight, nLimit)
    {
      hide Without, Cleaned;
      ghost var s := Abs();
      var todo := mapMasternodePayeeVotes.Keys;
      ghost var gone: set<Hash256> := {};
      WithoutNone(s);
      while todo != {}
        invariant todo <= s.votes.Keys && gone <= s.votes.Keys - todo
        invariant forall k :: k in s.votes && k !in todo ==> (k in gone <==> Expired(s.votes[k], nHeight, nLimit))
        invariant Abs() == Without(s, gone)
        decreases |todo|
      {
        var key :| key in todo;
        todo := todo - {key};
        WithoutOneMore(s, gone, key);
        var winner := mapMasternodePayeeVotes[key];
        if nHeight - winner.nBlockHeight > nLimit {
          mapMasternodePayeeVotes := mapMasternodePayeeVotes - {key};
          mapMasternodeBlocks := mapMasternodeBlocks - {winner.nBlockHeight};
          gone := gone + {key};
        }
      }
      WithoutExpired(s, gone, nHeight, nLimit);
    }

    method GetBlockPayee(nBlockHeight: int) returns (r: Option<Script>)
      ensures if nBlockHeight in mapMasternodeBlocks then IsWinner(mapMasternodeBlocks[nBlockHeight].vecPayments, r) else r.None?
    {
      if nBlockHeight in mapMasternodeBlocks {
        r := GetPayee(mapMasternodeBlocks[nBlockHeight].vecPayments);
      } else {
        r := None;
      }
    }
  }
}
