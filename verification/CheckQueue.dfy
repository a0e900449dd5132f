/**
  The script-check queue: one master and any number of workers around one mutex. A step of the
  machine is one critical section, one executed check, or one wake-up, so a run of the machine is
  any interleaving. fQuit is set to false by the constructor and never assigned, so it is absent.
  */
module CheckQueue {
  import opened Arith

  /** One verification and the answer its operator() gives. */
  datatype Check = Check(id: nat, passes: bool)

  /** Where a thread is in CCheckQueue::Loop, with the locals that are live there. */
  datatype Thread =
    | Outside
    | AtLock(vChecks: seq<Check>, fOk: bool)  // before the mutex; nNow == |vChecks|, 0 at first
    | Waiting(notified: bool)                 // inside cond.wait
    | Running(vChecks: seq<Check>, next: nat, fOk: bool)
  {
    /** The checks this thread has taken and not yet merged. */
    function Batch(): seq<Check> {
      if AtLock? || Running? then vChecks else []
    }

    /** Counted in nTotal: inside Loop and past the first critical section. */
    predicate Joined() {
      Waiting? || |Batch()| > 0
    }
  }

  /** threads[0] is the master. */
  datatype Queue = Queue(
    queue: seq<Check>,
    nIdle: int,
    nTotal: int,
    fAllOk: bool,
    nTodo: int,
    nBatchSize: nat,
    threads: seq<Thread>)

  /** What an observer of Add and Wait sees. */
  datatype Event = Added(checks: seq<Check>) | Returned(verdict: bool) | Internal

  function Initial(nBatchSize: nat, workers: nat): Queue {
    Queue([], 0, 0, true, 0, nBatchSize, seq(workers + 1, _ => Outside))
  }

  predicate IsIdle(s: Queue) {
    s.nTotal == s.nIdle && s.nTodo == 0 && s.fAllOk
  }

  // ----- Steps -----

  datatype Step =
    | Add(checks: seq<Check>, woken: nat)  // woken: the worker notify_one picks, if any waits for it
    | Enter(thread: nat)                   // Wait() by the master, Thread() by a worker
    | Lock(thread: nat)
    | Wake(thread: nat)                    // notified or spurious
    | Execute(thread: nat)

  /** notify_one wakes some worker that waits and has not been notified, if there is one. */
  predicate Wakes(ts: seq<Thread>, w: nat) {
    (exists j :: 0 < j < |ts| && ts[j] == Waiting(false)) ==> 0 < w < |ts| && ts[w] == Waiting(false)
  }

  predicate Enabled(s: Queue, step: Step) {
    match step
    case Add(checks, w) => |s.threads| > 0 && s.threads[0].Outside? && (|checks| == 1 ==> Wakes(s.threads, w))
    case Enter(i) => i < |s.threads| && s.threads[i].Outside?
    case Lock(i) => i < |s.threads| && s.threads[i].AtLock?
    case Wake(i) => i < |s.threads| && s.threads[i].Waiting?
    case Execute(i) => i < |s.threads| && s.threads[i].Running?
  }

  function Notify(t: Thread): Thread {
    if t.Waiting? then Waiting(true) else t
  }

  function NotifyWorkers(ts: seq<Thread>): seq<Thread> {
    seq(|ts|, i requires 0 <= i < |ts| => if i == 0 then ts[i] else Notify(ts[i]))
  }

  function BatchCount(s: Queue): int {
    var share := if s.nTotal + s.nIdle + 1 > 0 then |s.queue| / (s.nTotal + s.nIdle + 1) else 0;
    var n := if share < s.nBatchSize then share else s.nBatchSize;
    if n < 1 then 1 else n
  }

  /** The last n elements of the queue, last one first. */
  function TakeBack(queue: seq<Check>, n: nat): seq<Check>
    requires n <= |queue|
  {
    seq(n, i requires 0 <= i < n => queue[|queue| - 1 - i])
  }

  /** From `while (queue.empty())` to the end of the critical section, for thread i. */
  function LoopHead(s: Queue, i: nat): (Queue, Event)
    requires i < |s.threads|
  {
    if s.queue == [] then
      if i == 0 && s.nTodo == 0 then
        (s.(nTotal := s.nTotal - 1, fAllOk := true, threads := s.threads[i := Outside]), Returned(s.fAllOk))
      else
        (s.(nIdle := s.nIdle + 1, threads := s.threads[i := Waiting(false)]), Internal)
    else
      var n := BatchCount(s);
      if n <= |s.queue| then
        (s.(queue := s.queue[..|s.queue| - n], threads := s.threads[i := Running(TakeBack(s.queue, n), 0, s.fAllOk)]), Internal)
      else (s, Internal)
  }

  /** The clean-up of the previous round, at the top of the critical section. */
  function MergeBatch(s: Queue, i: nat): Queue
    requires i < |s.threads| && s.threads[i].AtLock?
  {
    var t := s.threads[i];
    if t.vChecks != [] then
      var s' := s.(fAllOk := s.fAllOk && t.fOk, nTodo := s.nTodo - |t.vChecks|, threads := s.threads[i := Outside]);
      if s'.nTodo == 0 && i != 0 then s'.(threads := s'.threads[0 := Notify(s'.threads[0])]) else s'
    else
      s.(threads := s.threads[i := Outside])
  }

  function Apply(s: Queue, step: Step): (Queue, Event)
    requires Enabled(s, step)
  {
    match step
    case Add(checks, w) =>
      var ts := if |checks| == 1 && 0 < w < |s.threads| then s.threads[w := Notify(s.threads[w])]
                else if |checks| > 1 then NotifyWorkers(s.threads)
                else s.threads;
      (s.(queue := s.queue + checks, nTodo := s.nTodo + |checks|, threads := ts), Added(checks))
    case Enter(i) => (s.(threads := s.threads[i := AtLock([], true)]), Internal)
    case Lock(i) =>
      var first := s.threads[i].vChecks == [];
      var merged := MergeBatch(s, i);
      LoopHead(if first then merged.(nTotal := merged.nTotal + 1) else merged, i)
    case Wake(i) => LoopHead(s.(nIdle := s.nIdle - 1, threads := s.threads[i := Outside]), i)
    case Execute(i) =>
      var t := s.threads[i];
      var t' := if t.next < |t.vChecks|
                then Running(t.vChecks, t.next + 1, if t.fOk then t.vChecks[t.next].passes else t.fOk)
                else AtLock(t.vChecks, t.fOk);
      (s.(threads := s.threads[i := t']), Internal)
  }

  // ----- Sums over the threads -----

  ghost function Sum(ts: seq<Thread>, f: Thread -> int): int {
    if ts == [] then 0 else f(ts[0]) + Sum(ts[1..], f)
  }

  lemma {:induction false} SumUpdate(ts: seq<Thread>, f: Thread -> int, i: nat, t: Thread)
    requires i < |ts|
    ensures Sum(ts[i := t], f) == Sum(ts, f) - f(ts[i]) + f(t)
  {
    if i > 0 {
      assert ts[i := t][1..] == ts[1..][i - 1 := t];
      SumUpdate(ts[1..], f, i - 1, t);
    } else {
      assert ts[i := t][1..] == ts[1..];
    }
  }

  lemma {:induction false} SumSame(ts: seq<Thread>, ts': seq<Thread>, f: Thread -> int)
    requires |ts| == |ts'| && forall i :: 0 <= i < |ts| ==> f(ts[i]) == f(ts'[i])
    ensures Sum(ts, f) == Sum(ts', f)
  {
    if ts != [] { SumSame(ts[1..], ts'[1..], f); }
  }

  lemma {:induction false} SumZero(ts: seq<Thread>, f: Thread -> int)
    requires forall t :: f(t) >= 0
    ensures Sum(ts, f) >= 0
    ensures Sum(ts, f) > 0 ==> exists i :: 0 <= i < |ts| && f(ts[i]) > 0
    ensures forall i :: 0 <= i < |ts| ==> f(ts[i]) <= Sum(ts, f)
  {
    if ts != [] {
      SumZero(ts[1..], f);
      if f(ts[0]) == 0 && Sum(ts, f) > 0 {
        var i :| 0 <= i < |ts[1..]| && f(ts[1..][i]) > 0;
        assert f(ts[i + 1]) > 0;
      }
      forall i | 0 <= i < |ts| ensures f(ts[i]) <= Sum(ts, f) {
        if i > 0 { assert ts[i] == ts[1..][i - 1]; }
      }
    }
  }

  ghost const Load: Thread -> int := (t: Thread) => |t.Batch()|
  ghost const Idle: Thread -> int := (t: Thread) => if t.Waiting? then 1 else 0
  ghost const Member: Thread -> int := (t: Thread) => if t.Joined() then 1 else 0

  // ----- The invariant -----

  ghost predicate SomeFails(added: seq<Check>) {
    exists c :: c in added && !c.passes
  }

  predicate AllPass(cs: seq<Check>) {
    forall c :: c in cs ==> c.passes
  }

  /** What a thread's locals say, given the checks added since the last Wait. */
  ghost predicate ThreadOk(t: Thread, added: seq<Check>) {
    && (forall c :: c in t.Batch() ==> c in added)
    && (t.AtLock? && t.vChecks == [] ==> t.fOk)
    && (t.AtLock? ==> if t.fOk then AllPass(t.vChecks) else SomeFails(added))
    && (t.Running? ==> |t.vChecks| > 0 && t.next <= |t.vChecks| &&
                       if t.fOk then AllPass(t.vChecks[..t.next]) else SomeFails(added))
  }

  /** A check that fails is still on its way, or has already turned fAllOk off. */
  ghost predicate Tracked(s: Queue, c: Check) {
    !s.fAllOk || c in s.queue || exists i :: 0 <= i < |s.threads| && c in s.threads[i].Batch()
  }

  ghost predicate Counted(s: Queue) {
    && s.nTodo == |s.queue| + Sum(s.threads, Load)
    && s.nIdle == Sum(s.threads, Idle)
    && s.nTotal == Sum(s.threads, Member)
  }

  ghost predicate Inv(s: Queue, added: seq<Check>) {
    && |s.threads| > 0
    && Counted(s)
    && (forall c :: c in s.queue ==> c in added)
    && (forall i :: 0 <= i < |s.threads| ==> ThreadOk(s.threads[i], added))
    && (forall c :: c in added && !c.passes ==> Tracked(s, c))
    && (!s.fAllOk ==> SomeFails(added))
    && (s.threads[0].Waiting? ==> s.queue == [])
    && (s.threads[0] == Waiting(false) ==> s.nTodo > 0)
  }

  /** The checks an observer has seen added since the last Wait returned. */
  function AddedSince(events: seq<Event>): seq<Check> {
    if events == [] then [] else
      var last := events[|events| - 1];
      match last
      case Added(checks) => AddedSince(events[..|events| - 1]) + checks
      case Returned(_) => []
      case Internal => AddedSince(events[..|events| - 1])
  }

  function After(added: seq<Check>, e: Event): seq<Check> {
    match e
    case Added(checks) => added + checks
    case Returned(_) => []
    case Internal => added
  }

  // ----- Preservation -----

  lemma InitialInv(nBatchSize: nat, workers: nat)
    ensures Inv(Initial(nBatchSize, workers), [])
  {
    var s := Initial(nBatchSize, workers);
    SumOutside(s.threads, Load);
    SumOutside(s.threads, Idle);
    SumOutside(s.threads, Member);
  }

  lemma {:induction false} SumOutside(ts: seq<Thread>, f: Thread -> int)
    requires f(Outside) == 0 && forall i :: 0 <= i < |ts| ==> ts[i] == Outside
    ensures Sum(ts, f) == 0
  {
    if ts != [] { SumOutside(ts[1..], f); }
  }

  lemma CountsAfter(s: Queue, i: nat, t: Thread)
    requires i < |s.threads|
    ensures Sum(s.threads[i := t], Load) == Sum(s.threads, Load) - Load(s.threads[i]) + Load(t)
    ensures Sum(s.threads[i := t], Idle) == Sum(s.threads, Idle) - Idle(s.threads[i]) + Idle(t)
    ensures Sum(s.threads[i := t], Member) == Sum(s.threads, Member) - Member(s.threads[i]) + Member(t)
  {
    SumUpdate(s.threads, Load, i, t);
    SumUpdate(s.threads, Idle, i, t);
    SumUpdate(s.threads, Member, i, t);
  }

  lemma CountsSame(ts: seq<Thread>, ts': seq<Thread>)
    requires |ts| == |ts'|
    requires forall i :: 0 <= i < |ts| ==> ts[i] == ts'[i] || (ts[i].Waiting? && ts'[i].Waiting?)
    ensures Sum(ts, Load) == Sum(ts', Load) && Sum(ts, Idle) == Sum(ts', Idle) && Sum(ts, Member) == Sum(ts', Member)
  {
    SumSame(ts, ts', Load);
    SumSame(ts, ts', Idle);
    SumSame(ts, ts', Member);
  }

  lemma AddKeepsInv(s: Queue, added: seq<Check>, checks: seq<Check>, w: nat)
    requires Inv(s, added) && Enabled(s, Add(checks, w))
    ensures Inv(Apply(s, Add(checks, w)).0, added + checks)
  {
    var s' := Apply(s, Add(checks, w)).0;
    CountsSame(s.threads, s'.threads);
    assert forall c :: c in added ==> c in added + checks;
    if SomeFails(added) {
      var c :| c in added && !c.passes;
      assert c in added + checks;
      assert SomeFails(added + checks);
    }
    forall i | 0 <= i < |s'.threads| ensures ThreadOk(s'.threads[i], added + checks) {
      assert ThreadOk(s.threads[i], added);
    }
    forall c | c in added + checks && !c.passes ensures Tracked(s', c) {
      if c in added {
        assert Tracked(s, c);
        if exists i :: 0 <= i < |s.threads| && c in s.threads[i].Batch() {
          var i :| 0 <= i < |s.threads| && c in s.threads[i].Batch();
          assert c in s'.threads[i].Batch();
        }
      }
    }
  }

  /**
    A state inside the critical section of thread i, which is shown as Outside meanwhile although
    nTotal counts it. Everything else about Inv holds.
    */
  ghost predicate Held(s: Queue, added: seq<Check>, i: nat) {
    && i < |s.threads| && s.threads[i] == Outside
    && s.nTodo == |s.queue| + Sum(s.threads, Load)
    && s.nIdle == Sum(s.threads, Idle)
    && s.nTotal == Sum(s.threads, Member) + 1
    && (forall c :: c in s.queue ==> c in added)
    && (forall j :: 0 <= j < |s.threads| ==> ThreadOk(s.threads[j], added))
    && (forall c :: c in added && !c.passes ==> Tracked(s, c))
    && (!s.fAllOk ==> SomeFails(added))
    && (s.threads[0].Waiting? ==> s.queue == [])
    && (s.threads[0] == Waiting(false) ==> s.nTodo > 0)
  }

  lemma NothingInFlight(s: Queue, added: seq<Check>, i: nat)
    requires Held(s, added, i) && s.nTodo == 0
    ensures s.queue == [] && s.fAllOk <==> AllPass(added)
  {
    SumZero(s.threads, Load);
    assert forall j :: 0 <= j < |s.threads| ==> Load(s.threads[j]) <= 0;
    forall c | c in added && !c.passes ensures !s.fAllOk {
      assert Tracked(s, c);
    }
  }

  lemma TakeBackSplits(queue: seq<Check>, n: nat)
    requires n <= |queue|
    ensures forall c :: c in queue <==> c in queue[..|queue| - n] || c in TakeBack(queue, n)
  {
    var batch := TakeBack(queue, n);
    forall c | c in queue ensures c in queue[..|queue| - n] || c in batch {
      var k :| 0 <= k < |queue| && queue[k] == c;
      if k >= |queue| - n {
        assert batch[|queue| - 1 - k] == c;
      } else {
        assert queue[..|queue| - n][k] == c;
      }
    }
  }

  /** The batches of the other threads are untouched, so failing checks stay tracked. */
  lemma TrackedElsewhere(s: Queue, s': Queue, i: nat, c: Check)
    requires i < |s.threads| == |s'.threads| && s.threads[i].Batch() == []
    requires forall j :: 0 <= j < |s.threads| && j != i ==> s'.threads[j].Batch() == s.threads[j].Batch()
    requires s.fAllOk == s'.fAllOk && Tracked(s, c)
    requires c in s.queue ==> c in s'.queue || c in s'.threads[i].Batch()
    ensures Tracked(s', c)
  {
    if exists j :: 0 <= j < |s.threads| && c in s.threads[j].Batch() {
      var j :| 0 <= j < |s.threads| && c in s.threads[j].Batch();
      assert j != i && c in s'.threads[j].Batch();
    }
  }

  lemma ReturnIsExact(s: Queue, added: seq<Check>)
    requires Held(s, added, 0) && s.queue == [] && s.nTodo == 0
    ensures Inv(LoopHead(s, 0).0, []) && (s.fAllOk <==> AllPass(added))
  {
    var s' := LoopHead(s, 0).0;
    SumZero(s.threads, Load);
    NothingInFlight(s, added, 0);
    CountsAfter(s, 0, Outside);
    forall j | 0 <= j < |s'.threads| ensures ThreadOk(s'.threads[j], []) {
      assert ThreadOk(s.threads[j], added) && Load(s.threads[j]) == 0;
    }
  }

  lemma WaitKeepsInv(s: Queue, added: seq<Check>, i: nat)
    requires Held(s, added, i) && s.queue == [] && (i == 0 ==> s.nTodo != 0)
    ensures Inv(LoopHead(s, i).0, added)
  {
    var s' := LoopHead(s, i).0;
    SumZero(s.threads, Load);
    CountsAfter(s, i, Waiting(false));
    forall j | 0 <= j < |s'.threads| ensures ThreadOk(s'.threads[j], added) {
      assert ThreadOk(s.threads[j], added);
    }
    forall c | c in added && !c.passes ensures Tracked(s', c) {
      TrackedElsewhere(s, s', i, c);
    }
  }

  lemma TakeKeepsInv(s: Queue, added: seq<Check>, i: nat)
    requires Held(s, added, i) && s.queue != []
    ensures Inv(LoopHead(s, i).0, added)
  {
    SumZero(s.threads, Idle);
    SumZero(s.threads, Member);
    BatchFits(s);
    var n := BatchCount(s);
    var t := Running(TakeBack(s.queue, n), 0, s.fAllOk);
    var s' := LoopHead(s, i).0;
    CountsAfter(s, i, t);
    TakeBackSplits(s.queue, n);
    assert ThreadOk(t, added);
    forall j | 0 <= j < |s'.threads| ensures ThreadOk(s'.threads[j], added) {
      assert ThreadOk(s.threads[j], added);
    }
    forall c | c in added && !c.passes ensures Tracked(s', c) {
      TrackedElsewhere(s, s', i, c);
    }
  }

  lemma LoopHeadKeepsInv(s: Queue, added: seq<Check>, i: nat)
    requires Held(s, added, i)
    ensures var (s', e) := LoopHead(s, i);
      && Inv(s', After(added, e)) && |s'.threads| == |s.threads|
      && (e.Returned? ==> i == 0 && (e.verdict <==> AllPass(added)))
  {
    if s.queue != [] {
      TakeKeepsInv(s, added, i);
    } else if i == 0 && s.nTodo == 0 {
      ReturnIsExact(s, added);
    } else {
      WaitKeepsInv(s, added, i);
    }
  }

  /**
    The batch never exceeds the queue, so popping it is safe. But for the one check it takes at least, it is as large as
    the limit and a fair share of the queue allow.
    */
  lemma BatchFits(s: Queue)
    requires s.queue != [] && s.nTotal >= 0 && s.nIdle >= 0
    ensures var n, d := BatchCount(s), s.nTotal + s.nIdle + 1;
      && 1 <= n <= |s.queue|
      && (n > 1 ==> n <= s.nBatchSize && n * d <= |s.queue|)
      && (n < s.nBatchSize ==> |s.queue| < (n + 1) * d)
  {
    var d := s.nTotal + s.nIdle + 1;
    ShareIs(|s.queue|, d);
    var n, share := BatchCount(s), |s.queue| / d;
    if n > 1 { MulMonotone(n, share, d); }
    if n < s.nBatchSize { MulMonotone(share + 1, n + 1, d); }
  }

  lemma ShareIs(size: nat, d: nat)
    requires d > 0
    ensures size / d <= size && size / d * d <= size < (size / d + 1) * d
  {
    DivideSplits(size, d);
    MulAdd(size / d, 1, d);
    MulMonotone(1, d, size / d);
  }

  /** If a failing check was in the merged batch, then the batch ended with fOk off. */
  lemma MergeKeepsTracked(s: Queue, added: seq<Check>, i: nat, c: Check)
    requires i < |s.threads| && s.threads[i].AtLock? && ThreadOk(s.threads[i], added)
    requires !c.passes && Tracked(s, c)
    ensures Tracked(MergeBatch(s, i), c)
  {
    var merged := MergeBatch(s, i);
    if exists j :: 0 <= j < |s.threads| && c in s.threads[j].Batch() {
      var j :| 0 <= j < |s.threads| && c in s.threads[j].Batch();
      if j != i { assert c in merged.threads[j].Batch(); }
    }
  }

  lemma MergeCounts(s: Queue, i: nat)
    requires Counted(s) && i < |s.threads| && s.threads[i].AtLock?
    ensures var merged := MergeBatch(s, i); var left := s.threads[i].vChecks != [];
      && merged.nTodo == |merged.queue| + Sum(merged.threads, Load)
      && merged.nIdle == Sum(merged.threads, Idle)
      && merged.nTotal == Sum(merged.threads, Member) + (if left then 1 else 0)
      && merged.nTodo >= 0
  {
    CountsAfter(s, i, Outside);
    CountsSame(s.threads[i := Outside], MergeBatch(s, i).threads);
    SumZero(s.threads[i := Outside], Load);
  }

  lemma MergeKeepsHeld(s: Queue, added: seq<Check>, i: nat)
    requires Inv(s, added) && i < |s.threads| && s.threads[i].AtLock?
    ensures var merged := MergeBatch(s, i);
      |merged.threads| == |s.threads| &&
      Held(if s.threads[i].vChecks == [] then merged.(nTotal := merged.nTotal + 1) else merged, added, i)
  {
    hide ThreadOk, Tracked, SomeFails;
    var merged := MergeBatch(s, i);
    var s' := if s.threads[i].vChecks == [] then merged.(nTotal := merged.nTotal + 1) else merged;
    assert ThreadOk(s.threads[i], added);
    MergeCounts(s, i);
    MergedOutcome(s, added, i);
    forall c | c in added && !c.passes ensures Tracked(s', c) {
      MergeKeepsTracked(s, added, i, c);
      TrackedSame(merged, s', c);
    }
    forall j | 0 <= j < |s'.threads| ensures ThreadOk(s'.threads[j], added) {
      assert ThreadOk(s.threads[j], added);
      StillOk(s.threads[j], added);
    }
  }

  /** Outside and after a notification a thread's locals say no more than before. */
  lemma StillOk(t: Thread, added: seq<Check>)
    requires ThreadOk(t, added)
    ensures ThreadOk(Outside, added) && ThreadOk(Notify(t), added)
  {}

  /** After a merge fAllOk is off only if a check has failed. */
  lemma MergedOutcome(s: Queue, added: seq<Check>, i: nat)
    requires i < |s.threads| && s.threads[i].AtLock? && ThreadOk(s.threads[i], added) && (!s.fAllOk ==> SomeFails(added))
    ensures !MergeBatch(s, i).fAllOk ==> SomeFails(added)
  {}

  /** A step that leaves the queue, fAllOk and every batch alone loses track of nothing. */
  lemma TrackedSame(s: Queue, s': Queue, c: Check)
    requires Tracked(s, c) && s'.fAllOk == s.fAllOk && s'.queue == s.queue && |s'.threads| == |s.threads|
    requires forall j :: 0 <= j < |s.threads| ==> s'.threads[j].Batch() == s.threads[j].Batch()
    ensures Tracked(s', c)
  {
    if exists j :: 0 <= j < |s.threads| && c in s.threads[j].Batch() {
      var j :| 0 <= j < |s.threads| && c in s.threads[j].Batch();
      assert c in s'.threads[j].Batch();
    }
  }

  lemma WakeKeepsHeld(s: Queue, added: seq<Check>, i: nat)
    requires Inv(s, added) && Enabled(s, Wake(i))
    ensures Held(s.(nIdle := s.nIdle - 1, threads := s.threads[i := Outside]), added, i)
  {
    var s' := s.(nIdle := s.nIdle - 1, threads := s.threads[i := Outside]);
    CountsAfter(s, i, Outside);
    forall c | c in added && !c.passes ensures Tracked(s', c) {
      TrackedSame(s, s', c);
    }
  }

  lemma ExecuteKeepsInv(s: Queue, added: seq<Check>, i: nat)
    requires Inv(s, added) && Enabled(s, Execute(i))
    ensures Inv(Apply(s, Execute(i)).0, added)
  {
    var s' := Apply(s, Execute(i)).0;
    var t, t' := s.threads[i], s'.threads[i];
    assert ThreadOk(t, added);
    CountsAfter(s, i, t');
    assert t'.Batch() == t.Batch();
    if t.next < |t.vChecks| {
      assert t.vChecks[..t.next + 1] == t.vChecks[..t.next] + [t.vChecks[t.next]];
      if t.fOk && !t'.fOk { assert t.vChecks[t.next] in added; }
    } else {
      assert t.vChecks[..t.next] == t.vChecks;
    }
    assert ThreadOk(t', added);
    forall c | c in added && !c.passes ensures Tracked(s', c) {
      TrackedSame(s, s', c);
    }
  }

  lemma EnterKeepsInv(s: Queue, added: seq<Check>, i: nat)
    requires Inv(s, added) && Enabled(s, Enter(i))
    ensures Inv(Apply(s, Enter(i)).0, added)
  {
    var s' := Apply(s, Enter(i)).0;
    CountsAfter(s, i, AtLock([], true));
    forall c | c in added && !c.passes ensures Tracked(s', c) {
      TrackedSame(s, s', c);
    }
  }

  lemma LockKeepsInv(s: Queue, added: seq<Check>, i: nat)
    requires Inv(s, added) && Enabled(s, Lock(i))
    ensures var (s', e) := Apply(s, Lock(i));
      && Inv(s', After(added, e)) && |s'.threads| == |s.threads|
      && (e.Returned? ==> (e.verdict <==> AllPass(added)))
  {
    hide Inv, Held, MergeBatch, LoopHead;
    MergeKeepsHeld(s, added, i);
    var merged := MergeBatch(s, i);
    LoopHeadKeepsInv(if s.threads[i].vChecks == [] then merged.(nTotal := merged.nTotal + 1) else merged, added, i);
  }

  lemma WakeKeepsInv(s: Queue, added: seq<Check>, i: nat)
    requires Inv(s, added) && Enabled(s, Wake(i))
    ensures var (s', e) := Apply(s, Wake(i));
      && Inv(s', After(added, e)) && |s'.threads| == |s.threads|
      && (e.Returned? ==> (e.verdict <==> AllPass(added)))
  {
    hide Inv, Held, LoopHead;
    WakeKeepsHeld(s, added, i);
    LoopHeadKeepsInv(s.(nIdle := s.nIdle - 1, threads := s.threads[i := Outside]), added, i);
  }

  /** Every step keeps the invariant, and a returning Wait reports exactly whether all checks pass. */
  lemma StepKeepsInv(s: Queue, added: seq<Check>, step: Step)
    requires Inv(s, added) && Enabled(s, step)
    ensures var (s', e) := Apply(s, step);
      && Inv(s', After(added, e))
      && |s'.threads| == |s.threads|
      && (e.Returned? ==> (e.verdict <==> AllPass(added)))
  {
    match step
    case Add(checks, w) => AddKeepsInv(s, added, checks, w);
    case Enter(i) => EnterKeepsInv(s, added, i);
    case Lock(i) => LockKeepsInv(s, added, i);
    case Wake(i) => WakeKeepsInv(s, added, i);
    case Execute(i) => ExecuteKeepsInv(s, added, i);
  }

  // ----- Runs: any interleaving -----

  ghost predicate IsRun(ss: seq<Queue>, steps: seq<Step>, events: seq<Event>, nBatchSize: nat, workers: nat) {
    && |ss| == |steps| + 1 && |events| == |steps|
    && ss[0] == Initial(nBatchSize, workers)
    && forall k :: 0 <= k < |steps| ==> Enabled(ss[k], steps[k]) && Apply(ss[k], steps[k]) == (ss[k + 1], events[k])
  }

  lemma {:induction false} RunKeepsInv(ss: seq<Queue>, steps: seq<Step>, events: seq<Event>, nBatchSize: nat, workers: nat)
    requires IsRun(ss, steps, events, nBatchSize, workers)
    ensures Inv(ss[|steps|], AddedSince(events))
    decreases |steps|
  {
    if |steps| == 0 {
      InitialInv(nBatchSize, workers);
    } else {
      var n := |steps| - 1;
      PrefixIsRun(ss, steps, events, nBatchSize, workers, n);
      RunKeepsInv(ss[..n + 1], steps[..n], events[..n], nBatchSize, workers);
      StepKeepsInv(ss[n], AddedSince(events[..n]), steps[n]);
      assert Apply(ss[n], steps[n]) == (ss[n + 1], events[n]);
      assert AddedSince(events) == After(AddedSince(events[..n]), events[n]);
    }
  }

  lemma PrefixIsRun(ss: seq<Queue>, steps: seq<Step>, events: seq<Event>, nBatchSize: nat, workers: nat, k: nat)
    requires IsRun(ss, steps, events, nBatchSize, workers) && k <= |steps|
    ensures IsRun(ss[..k + 1], steps[..k], events[..k], nBatchSize, workers)
  {}

  /**
    Wait answers true exactly when every check added since the previous Wait passes, in every
    interleaving and although checks are skipped once one has failed.
    */
  lemma WaitIsExact(ss: seq<Queue>, steps: seq<Step>, events: seq<Event>, nBatchSize: nat, workers: nat, k: nat)
    requires IsRun(ss, steps, events, nBatchSize, workers) && k < |steps| && events[k].Returned?
    ensures events[k].verdict <==> AllPass(AddedSince(events[..k]))
  {
    PrefixIsRun(ss, steps, events, nBatchSize, workers, k);
    RunKeepsInv(ss[..k + 1], steps[..k], events[..k], nBatchSize, workers);
    StepKeepsInv(ss[k], AddedSince(events[..k]), steps[k]);
    assert Apply(ss[k], steps[k]) == (ss[k + 1], events[k]);
  }

  /** nTodo counts the queued checks and those in batches not merged yet, so it never goes below 0. */
  lemma TodoCountsOutstandingChecks(ss: seq<Queue>, steps: seq<Step>, events: seq<Event>, nBatchSize: nat, workers: nat, k: nat)
    requires IsRun(ss, steps, events, nBatchSize, workers) && k <= |steps|
    ensures ss[k].nTodo == |ss[k].queue| + Sum(ss[k].threads, Load) >= 0
  {
    PrefixIsRun(ss, steps, events, nBatchSize, workers, k);
    RunKeepsInv(ss[..k + 1], steps[..k], events[..k], nBatchSize, workers);
    SumZero(ss[k].threads, Load);
  }

  /** No wake-up is lost: a master that waits un-notified waits for a batch some worker still holds. */
  lemma MasterIsNeverStranded(ss: seq<Queue>, steps: seq<Step>, events: seq<Event>, nBatchSize: nat, workers: nat, k: nat)
    requires IsRun(ss, steps, events, nBatchSize, workers) && k <= |steps|
    ensures ss[k].threads != []
    ensures ss[k].threads[0] == Waiting(false) ==>
      exists i :: 0 < i < |ss[k].threads| && |ss[k].threads[i].Batch()| > 0 && !ss[k].threads[i].Waiting?
  {
    PrefixIsRun(ss, steps, events, nBatchSize, workers, k);
    RunKeepsInv(ss[..k + 1], steps[..k], events[..k], nBatchSize, workers);
    var s := ss[k];
    if s.threads[0] == Waiting(false) {
      SumZero(s.threads, Load);
      var i :| 0 <= i < |s.threads| && Load(s.threads[i]) > 0;
      assert i != 0 && |s.threads[i].Batch()| > 0;
    }
  }

  /** A thread that will look at the queue without being notified again. */
  predicate Awake(t: Thread) {
    t.AtLock? || t.Running? || t == Waiting(true)
  }

  /** While there is work and some worker waits, some worker is awake. */
  ghost predicate WorkIsSeen(s: Queue) {
    s.queue != [] && (exists i :: 0 < i < |s.threads| && s.threads[i].Waiting?) ==> exists i :: 0 < i < |s.threads| && Awake(s.threads[i])
  }

  lemma AddIsSeen(s: Queue, checks: seq<Check>, w: nat)
    requires WorkIsSeen(s) && Enabled(s, Add(checks, w))
    ensures WorkIsSeen(Apply(s, Add(checks, w)).0)
  {
    var s' := Apply(s, Add(checks, w)).0;
    if s'.queue != [] && exists i :: 0 < i < |s'.threads| && s'.threads[i].Waiting? {
      var i :| 0 < i < |s'.threads| && s'.threads[i].Waiting?;
      if |checks| == 0 {
        var j :| 0 < j < |s.threads| && Awake(s.threads[j]);
        assert Awake(s'.threads[j]);
      } else if |checks| > 1 {
        assert Awake(s'.threads[i]);
      } else if s.threads[i] == Waiting(false) {
        assert Awake(s'.threads[w]);
      } else {
        assert Awake(s'.threads[i]);
      }
    }
  }

  /** A worker in its critical section leaves an empty queue, or is awake. */
  lemma LoopHeadSees(s: Queue, i: nat)
    requires 0 < i < |s.threads| && s.nTotal >= 0 && s.nIdle >= 0
    ensures var s' := LoopHead(s, i).0; s'.queue != [] ==> |s'.threads| == |s.threads| && Awake(s'.threads[i])
    ensures WorkIsSeen(LoopHead(s, i).0)
  {
    if s.queue != [] {
      BatchFits(s);
      assert Awake(LoopHead(s, i).0.threads[i]);
    }
  }

  /** The master only takes from the queue, and moves no worker. */
  lemma MasterLeavesWorkers(s: Queue, s': Queue)
    requires WorkIsSeen(s) && |s'.threads| == |s.threads| && (s'.queue != [] ==> s.queue != [])
    requires forall j :: 0 < j < |s.threads| ==> s'.threads[j] == s.threads[j]
    ensures WorkIsSeen(s')
  {
    if s'.queue != [] && exists i :: 0 < i < |s'.threads| && s'.threads[i].Waiting? {
      var i :| 0 < i < |s'.threads| && s'.threads[i].Waiting?;
      assert s.threads[i].Waiting?;
      var j :| 0 < j < |s.threads| && Awake(s.threads[j]);
      assert Awake(s'.threads[j]);
    }
  }

  /** A thread that was awake, or not in the loop, and is awake now. */
  lemma OneMoves(s: Queue, s': Queue, i: nat)
    requires WorkIsSeen(s) && i < |s.threads| == |s'.threads| && s'.queue == s.queue && Awake(s'.threads[i])
    requires forall j :: 0 <= j < |s.threads| && j != i ==> s'.threads[j] == s.threads[j]
    ensures WorkIsSeen(s')
  {
    if i == 0 { MasterLeavesWorkers(s, s'); }
  }

  lemma StepIsSeen(s: Queue, added: seq<Check>, step: Step)
    requires Inv(s, added) && WorkIsSeen(s) && Enabled(s, step)
    ensures WorkIsSeen(Apply(s, step).0)
  {
    hide Inv, WorkIsSeen, LoopHead, MergeBatch;
    var s' := Apply(s, step).0;
    match step
    case Add(checks, w) => AddIsSeen(s, checks, w);
    case Enter(i) => OneMoves(s, s', i);
    case Execute(i) => OneMoves(s, s', i);
    case Lock(i) => LockIsSeen(s, added, i);
    case Wake(i) => WakeIsSeen(s, added, i);
  }

  lemma LockIsSeen(s: Queue, added: seq<Check>, i: nat)
    requires Inv(s, added) && WorkIsSeen(s) && Enabled(s, Lock(i))
    ensures WorkIsSeen(Apply(s, Lock(i)).0)
  {
    hide WorkIsSeen, ThreadOk, Tracked, SomeFails;
    var merged := MergeBatch(s, i);
    var m := if s.threads[i].vChecks == [] then merged.(nTotal := merged.nTotal + 1) else merged;
    MergeKeepsHeld(s, added, i);
    SumZero(m.threads, Idle);
    SumZero(m.threads, Member);
    if i > 0 { LoopHeadSees(m, i); } else { MasterLeavesWorkers(s, LoopHead(m, 0).0); }
  }

  lemma WakeIsSeen(s: Queue, added: seq<Check>, i: nat)
    requires Inv(s, added) && WorkIsSeen(s) && Enabled(s, Wake(i))
    ensures WorkIsSeen(Apply(s, Wake(i)).0)
  {
    hide WorkIsSeen, ThreadOk, Tracked, SomeFails;
    var m := s.(nIdle := s.nIdle - 1, threads := s.threads[i := Outside]);
    WakeKeepsHeld(s, added, i);
    SumZero(m.threads, Idle);
    SumZero(m.threads, Member);
    if i > 0 { LoopHeadSees(m, i); } else { MasterLeavesWorkers(s, LoopHead(m, 0).0); }
  }

  /** No wake-up of a worker is lost: in no interleaving do all that are in the loop sleep beside work. */
  lemma {:induction false} WorkersAreNeverStranded(ss: seq<Queue>, steps: seq<Step>, events: seq<Event>, nBatchSize: nat, workers: nat, k: nat)
    requires IsRun(ss, steps, events, nBatchSize, workers) && k <= |steps|
    ensures WorkIsSeen(ss[k])
  {
    hide Inv, WorkIsSeen, Enabled, Apply;
    if k == 0 {
      NoWorkYet(nBatchSize, workers);
    } else {
      WorkersAreNeverStranded(ss, steps, events, nBatchSize, workers, k - 1);
      PrefixIsRun(ss, steps, events, nBatchSize, workers, k - 1);
      RunKeepsInv(ss[..k], steps[..k - 1], events[..k - 1], nBatchSize, workers);
      StepIsSeen(ss[k - 1], AddedSince(events[..k - 1]), steps[k - 1]);
      assert Apply(ss[k - 1], steps[k - 1]) == (ss[k], events[k - 1]);
    }
  }

  lemma NoWorkYet(nBatchSize: nat, workers: nat)
    ensures WorkIsSeen(Initial(nBatchSize, workers))
  {}

  /** IsIdle holds from the start or a returning Wait until the next non-empty Add. */
  lemma IdleUntilNextAdd(ss: seq<Queue>, steps: seq<Step>, events: seq<Event>, nBatchSize: nat, workers: nat, k: nat)
    requires IsRun(ss, steps, events, nBatchSize, workers) && k <= |steps|
    requires AddedSince(events[..k]) == []
    ensures IsIdle(ss[k])
  {
    PrefixIsRun(ss, steps, events, nBatchSize, workers, k);
    RunKeepsInv(ss[..k + 1], steps[..k], events[..k], nBatchSize, workers);
    var s := ss[k];
    assert forall i :: 0 <= i < |s.threads| ==> ThreadOk(s.threads[i], []);
    OnlyOldChecks(s.queue, []);
    forall i | 0 <= i < |s.threads| ensures s.threads[i].Batch() == [] {
      OnlyOldChecks(s.threads[i].Batch(), []);
    }
    SumZero(s.threads, Load);
    SumSameOf(s.threads, Idle, Member);
  }

  lemma OnlyOldChecks(cs: seq<Check>, added: seq<Check>)
    requires forall c :: c in cs ==> c in added
    ensures cs != [] ==> added != []
  {
    if cs != [] { assert cs[0] in added; }
  }

  lemma {:induction false} SumSameOf(ts: seq<Thread>, f: Thread -> int, g: Thread -> int)
    requires forall i :: 0 <= i < |ts| ==> f(ts[i]) == g(ts[i])
    ensures Sum(ts, f) == Sum(ts, g)
  {
    if ts != [] { SumSameOf(ts[1..], f, g); }
  }
}
