/** The parallel check queue as a state machine whose steps are the critical sections of the
    master and worker threads and the single checks run between them (src/checkqueue.h). */
module CheckQueues {
  import opened Options

  type Result = int

  /** A check, and what calling it returns. */
  datatype Check = Check(id: nat, outcome: Option<Result>)

  /** Where a thread is. `local` is its local_result, which outlives the batch it came from. */
  datatype Thread =
    | Outside
    | Starting
    | Working(batch: seq<Check>, done: nat, doWork: bool, local: Option<Result>)
    | Waiting(notified: bool, local: Option<Result>)

  /** The queue's fields and threads, thread 0 being the master; and as history the checks added
      and finished in this session, and the last session's checks and return value. */
  datatype State = State(queue: seq<Check>, nTodo: int, nIdle: int, nTotal: int, result: Option<Result>,
                         threads: seq<Thread>, added: multiset<Check>, finished: multiset<Check>,
                         lastAdded: multiset<Check>, lastReturn: Option<Result>)

  const MASTER: nat := 0

  /** The batch is over: nothing to do, all checks run, or one of them failed. */
  predicate Finished(w: Thread) {
    w.Working? && (!w.doWork || w.done == |w.batch| || (w.done > 0 && w.local.Some?))
  }

  // ---- Steps ----

  datatype Step =
    | Add(checks: seq<Check>, woken: set<nat>)  // by the master, outside Complete
    | Complete                                  // the master enters the loop
    | RunCheck(t: nat)                          // one check, outside the lock
    | Enter(t: nat)                             // take the lock, up to the next release
    | Wake(t: nat)                              // return from the wait, up to the next release

  predicate Enabled(s: State, step: Step) {
    match step
    case Add(checks, woken) => s.threads != [] && s.threads[MASTER].Outside? && NotifyOk(s, checks, woken)
    case Complete => s.threads != [] && s.threads[MASTER].Outside?
    case RunCheck(t) => t < |s.threads| && s.threads[t].Working? && !Finished(s.threads[t])
        && s.threads[t].done < |s.threads[t].batch|
    case Enter(t) => t < |s.threads| && (s.threads[t].Starting? || Finished(s.threads[t]))
    case Wake(t) => t < |s.threads| && s.threads[t].Waiting?
  }

  predicate IsWaiting(ts: seq<Thread>, t: nat) {
    t < |ts| && ts[t].Waiting?
  }

  /** Which workers Add wakes: none for no checks, one (if any waits) for one, all for more. */
  predicate NotifyOk(s: State, checks: seq<Check>, woken: set<nat>) {
    && (forall t :: t in woken ==> t != MASTER && IsWaiting(s.threads, t))
    && (checks == [] ==> woken == {})
    && (|checks| == 1 ==>
        |woken| <= 1 && (woken == {} ==> forall t :: 0 < t < |s.threads| ==> !IsWaiting(s.threads, t)))
    && (|checks| > 1 ==> forall t :: 0 < t < |s.threads| && IsWaiting(s.threads, t) ==> t in woken)
  }

  function Notified(t: Thread): Thread {
    if t.Waiting? then Waiting(true, t.local) else t
  }

  function NotifyAll(ts: seq<Thread>, woken: set<nat>): seq<Thread> {
    seq(|ts|, i requires 0 <= i < |ts| => if i in woken then Notified(ts[i]) else ts[i])
  }

  /** max(1, min(batchSize, queued / (nTotal + nIdle + 1))) */
  function BatchSize(s: State, batchSize: nat): nat {
    var share := if s.nTotal + s.nIdle + 1 > 0 then |s.queue| / (s.nTotal + s.nIdle + 1) else 0;
    var capped := if share < batchSize then share else batchSize;
    if capped < 1 then 1 else capped
  }

  /** The inner loop: return, wait, or take a batch off the end of the queue. */
  function LoopTop(s: State, t: nat, local: Option<Result>, batchSize: nat): State
    requires t < |s.threads|
  {
    if s.queue == [] then
      if t == MASTER && s.nTodo == 0 then
        s.(nTotal := s.nTotal - 1, result := None, threads := s.threads[t := Outside],
           added := multiset{}, finished := multiset{}, lastAdded := s.added, lastReturn := s.result)
      else
        s.(nIdle := s.nIdle + 1, threads := s.threads[t := Waiting(false, local)])
    else
      var n := BatchSize(s, batchSize);
      if n > |s.queue| then s else
      var at := |s.queue| - n;
      s.(queue := s.queue[..at], threads := s.threads[t := Working(s.queue[at..], 0, s.result.None?, local)])
  }

  /** The clean-up after a batch. */
  function CleanUp(s: State, t: nat): State
    requires t < |s.threads| && s.threads[t].Working?
  {
    var w := s.threads[t];
    var take := w.local.Some? && s.result.None?;
    var todo := s.nTodo - |w.batch|;
    var ts := s.threads[t := Starting];
    s.(result := if take then w.local else s.result, nTodo := todo, finished := s.finished + multiset(w.batch),
       threads := if todo == 0 && t != MASTER then ts[MASTER := Notified(ts[MASTER])] else ts)
  }

  /** local_result after the clean-up: swapped away, or kept. */
  function LocalAfter(s: State, w: Thread): Option<Result>
    requires w.Working?
  {
    if w.local.Some? && s.result.None? then None else w.local
  }

  function Apply(s: State, step: Step, batchSize: nat): State
    requires Enabled(s, step)
  {
    match step
    case Add(checks, woken) =>
      s.(queue := s.queue + checks, nTodo := s.nTodo + |checks|, threads := NotifyAll(s.threads, woken),
          added := s.added + multiset(checks))
    case Complete => s.(threads := s.threads[MASTER := Starting])
    case RunCheck(t) =>
      var w := s.threads[t];
      s.(threads := s.threads[t := w.(done := w.done + 1, local := w.batch[w.done].outcome)])
    case Enter(t) =>
      if s.threads[t].Starting? then LoopTop(s.(nTotal := s.nTotal + 1), t, None, batchSize)
      else LoopTop(CleanUp(s, t), t, LocalAfter(s, s.threads[t]), batchSize)
    case Wake(t) => LoopTop(s.(nIdle := s.nIdle - 1, threads := s.threads[t := Starting]), t, s.threads[t].local,
        batchSize)
  }

  // ---- Totals over threads ----

  function BatchOf(t: Thread): multiset<Check> {
    if t.Working? then multiset(t.batch) else multiset{}
  }

  function Flying(ts: seq<Thread>): multiset<Check> {
    if ts == [] then multiset{} else BatchOf(ts[0]) + Flying(ts[1..])
  }

  lemma {:induction false} FlyingUpdate(ts: seq<Thread>, t: nat, x: Thread)
    requires t < |ts|
    ensures Flying(ts[t := x]) + BatchOf(ts[t]) == Flying(ts) + BatchOf(x)
  {
    hide BatchOf;
    var us := ts[t := x];
    if t == 0 {
      assert us[1..] == ts[1..];
      Swap3(BatchOf(x), Flying(ts[1..]), BatchOf(ts[0]));
    } else {
      FlyingUpdate(ts[1..], t - 1, x);
      assert us[1..] == ts[1..][t - 1 := x];
      Regroup3(BatchOf(ts[0]), Flying(us[1..]), BatchOf(ts[t]));
      Regroup3(BatchOf(ts[0]), Flying(ts[1..]), BatchOf(x));
    }
  }

  lemma {:induction false} Swap3(a: multiset<Check>, b: multiset<Check>, c: multiset<Check>)
    ensures a + b + c == c + b + a
  {
  }

  lemma {:induction false} Regroup3(a: multiset<Check>, b: multiset<Check>, c: multiset<Check>)
    ensures a + b + c == a + (b + c)
  {
  }

  function Tally(ts: seq<Thread>, f: Thread -> nat): nat {
    if ts == [] then 0 else f(ts[0]) + Tally(ts[1..], f)
  }

  lemma {:induction false} TallyUpdate(ts: seq<Thread>, t: nat, x: Thread, f: Thread -> nat)
    requires t < |ts|
    ensures Tally(ts[t := x], f) + f(ts[t]) == Tally(ts, f) + f(x)
  {
    if t == 0 {
      assert ts[t := x][1..] == ts[1..];
    } else {
      TallyUpdate(ts[1..], t - 1, x, f);
      assert ts[t := x][1..] == ts[1..][t - 1 := x];
    }
  }

  lemma {:induction false} TallySame(ts: seq<Thread>, us: seq<Thread>, f: Thread -> nat)
    requires |ts| == |us| && forall i :: 0 <= i < |ts| ==> f(ts[i]) == f(us[i])
    ensures Tally(ts, f) == Tally(us, f)
  {
    if ts != [] { TallySame(ts[1..], us[1..], f); }
  }

  function IdleOf(t: Thread): nat { if t.Waiting? then 1 else 0 }
  function InsideOf(t: Thread): nat { if t.Waiting? || t.Working? then 1 else 0 }

  // ---- The invariant ----

  /** What a thread's local variables say about its batch. */
  predicate ThreadOk(w: Thread, result: Option<Result>) {
    w.Working? ==>
      && w.batch != [] && w.done <= |w.batch| && (!w.doWork ==> w.done == 0 && result.Some?)
      && (w.done > 0 ==>
          w.local == w.batch[w.done - 1].outcome && forall j {:trigger w.batch[j]} :: 0 <= j < w.done - 1 ==>
          w.batch[j].outcome.None?)
  }

  predicate AllNone(cs: multiset<Check>) {
    forall c :: c in cs ==> c.outcome.None?
  }

  predicate SomeHas(cs: multiset<Check>, r: Result) {
    exists c :: c in cs && c.outcome == Some(r)
  }

  /** nullopt exactly when every check returned nullopt, otherwise the result of one of them. */
  predicate CorrectResult(cs: multiset<Check>, r: Option<Result>) {
    match r
    case None => AllNone(cs)
    case Some(v) => SomeHas(cs, v)
  }

  /** The master waits only while others hold work, or after it was told to look again. */
  predicate MasterOk(s: State) {
    && s.threads != [] && (s.threads[MASTER].Waiting? ==> s.queue == [] && (s.threads[MASTER].notified || s.nTodo > 0))
    && (forall t {:trigger s.threads[t]} :: 0 < t < |s.threads| ==> !s.threads[t].Outside?)
  }

  predicate Counters(s: State) {
    && s.nTodo == |s.queue| + |Flying(s.threads)|
    && s.nIdle == Tally(s.threads, IdleOf) && s.nTotal == Tally(s.threads, InsideOf)
  }

  predicate Results(s: State) {
    && (s.result.Some? ==> SomeHas(s.added, s.result.value))
    && (s.result.None? ==> AllNone(s.finished))
    && CorrectResult(s.lastAdded, s.lastReturn)
  }

  predicate Inv(s: State) {
    && s.added == multiset(s.queue) + Flying(s.threads) + s.finished
    && Counters(s) && Results(s) && MasterOk(s)
    && (forall t {:trigger s.threads[t]} :: 0 <= t < |s.threads| ==> ThreadOk(s.threads[t], s.result))
  }

  /** A new queue: no checks, the workers about to enter the loop. */
  function Initial(workers: nat): State {
    State([], 0, 0, 0, None, [Outside] + seq(workers, _ => Starting), multiset{}, multiset{}, multiset{}, None)
  }

  lemma {:induction false} InitialTallies(ts: seq<Thread>)
    requires forall i :: 0 <= i < |ts| ==> ts[i].Outside? || ts[i].Starting?
    ensures Flying(ts) == multiset{} && Tally(ts, IdleOf) == 0 && Tally(ts, InsideOf) == 0
  {
    if ts != [] { InitialTallies(ts[1..]); }
  }

  lemma {:induction false} InitialInv(workers: nat)
    ensures Inv(Initial(workers))
  {
    InitialTallies(Initial(workers).threads);
  }

  // ---- Every step keeps it ----

  /** The invariant while thread `t` holds the lock at the top of the loop, counted as not inside. */
  predicate AtTop(s: State, t: nat, inside: nat) {
    && t < |s.threads| && s.threads[t].Starting? && s.added == multiset(s.queue) + Flying(s.threads) + s.finished
    && s.nTodo == |s.queue| + |Flying(s.threads)|
    && s.nIdle == Tally(s.threads, IdleOf) && s.nTotal == Tally(s.threads, InsideOf) + inside
    && Results(s) && MasterOk(s)
    && (forall i {:trigger s.threads[i]} :: 0 <= i < |s.threads| ==> ThreadOk(s.threads[i], s.result))
  }

  lemma {:induction false} BatchFits(s: State, batchSize: nat)
    requires s.queue != [] && s.nTotal >= 0 && s.nIdle >= 0
    ensures 1 <= BatchSize(s, batchSize) <= |s.queue|
  {
  }

  lemma {:induction false} FlyingMember(ts: seq<Thread>, t: nat)
    requires t < |ts|
    ensures BatchOf(ts[t]) <= Flying(ts)
  {
    if t > 0 { FlyingMember(ts[1..], t - 1); }
  }

  lemma {:induction false} OneThread(s: State, t: nat, x: Thread)
    requires t < |s.threads|
    ensures Flying(s.threads[t := x]) == Flying(s.threads) - BatchOf(s.threads[t]) + BatchOf(x)
    ensures |Flying(s.threads[t := x])| == |Flying(s.threads)| - |BatchOf(s.threads[t])| + |BatchOf(x)|
    ensures BatchOf(s.threads[t]) == BatchOf(x) ==> Flying(s.threads[t := x]) == Flying(s.threads)
    ensures Tally(s.threads[t := x], IdleOf) + IdleOf(s.threads[t]) == Tally(s.threads, IdleOf) + IdleOf(x)
    ensures Tally(s.threads[t := x], InsideOf) + InsideOf(s.threads[t]) == Tally(s.threads, InsideOf) + InsideOf(x)
  {
    hide Flying, Tally, BatchOf;
    FlyingUpdate(s.threads, t, x);
    FlyingMember(s.threads, t);
    var b := BatchOf(s.threads[t]);
    assert Flying(s.threads[t := x]) == (Flying(s.threads[t := x]) + b) - b;
    assert Flying(s.threads) + BatchOf(x) - b == Flying(s.threads) - b + BatchOf(x);
    assert |Flying(s.threads[t := x]) + b| == |Flying(s.threads) + BatchOf(x)|;
    TallyUpdate(s.threads, t, x, IdleOf);
    TallyUpdate(s.threads, t, x, InsideOf);
  }

  /** The master leaves only when every check of the session is finished. */
  lemma {:induction false} ReturnInv(s: State, local: Option<Result>, batchSize: nat)
    requires AtTop(s, MASTER, 1) && s.queue == [] && s.nTodo == 0
    ensures Inv(LoopTop(s, MASTER, local, batchSize)) && CorrectResult(s.added, s.result)
  {
    hide Flying, Tally;
    OneThread(s, MASTER, Outside);
    assert |Flying(s.threads)| == 0 && Flying(s.threads) == multiset{};
    assert s.added == s.finished;
    forall i | 0 <= i < |s.threads| ensures !s.threads[i].Working? {
      FlyingMember(s.threads, i);
      assert s.threads[i].Working? ==> |BatchOf(s.threads[i])| > 0;
    }
  }

  lemma {:induction false} WaitInv(s: State, t: nat, local: Option<Result>, batchSize: nat)
    requires AtTop(s, t, 1) && s.queue == [] && !(t == MASTER && s.nTodo == 0)
    ensures Inv(LoopTop(s, t, local, batchSize))
  {
    hide Flying, Tally;
    OneThread(s, t, Waiting(false, local));
  }

  lemma {:induction false} TakeCounts(s: State, t: nat, x: Thread, at: nat)
    requires AtTop(s, t, 1) && at < |s.queue| && x.Working? && x.batch == s.queue[at..]
    ensures s.added == multiset(s.queue[..at]) + Flying(s.threads[t := x]) + s.finished
    ensures s.nTodo == at + |Flying(s.threads[t := x])|
    ensures s.nIdle == Tally(s.threads[t := x], IdleOf) && s.nTotal == Tally(s.threads[t := x], InsideOf)
  {
    hide Flying, Tally, Results, MasterOk, ThreadOk;
    OneThread(s, t, x);
    assert s.queue == s.queue[..at] + s.queue[at..];
    assert BatchOf(s.threads[t]) == multiset{};
  }

  lemma {:induction false} TakeInv(s: State, t: nat, local: Option<Result>, batchSize: nat)
    requires AtTop(s, t, 1) && s.queue != []
    ensures Inv(LoopTop(s, t, local, batchSize))
  {
    hide Flying, Tally, AllNone, SomeHas, CorrectResult, BatchSize;
    BatchFits(s, batchSize);
    var at := |s.queue| - BatchSize(s, batchSize);
    TakeCounts(s, t, Working(s.queue[at..], 0, s.result.None?, local), at);
  }

  lemma {:induction false} LoopTopInv(s: State, t: nat, local: Option<Result>, batchSize: nat)
    requires AtTop(s, t, 1)
    ensures Inv(LoopTop(s, t, local, batchSize))
  {
    hide Inv, LoopTop;
    if s.queue != [] {
      TakeInv(s, t, local, batchSize);
    } else if t == MASTER && s.nTodo == 0 {
      ReturnInv(s, local, batchSize);
    } else {
      WaitInv(s, t, local, batchSize);
    }
  }

  lemma {:induction false} CleanUpTop(s: State, t: nat)
    requires Inv(s) && t < |s.threads| && Finished(s.threads[t])
    ensures AtTop(CleanUp(s, t), t, 1)
  {
    hide Flying, Tally, Results;
    var s' := CleanUp(s, t);
    var ts := s.threads[t := Starting];
    OneThread(s, t, Starting);
    CleanUpResults(s, t);
    FlyingMember(s.threads, t);
    NotifySame(s.threads[t := Starting], s'.threads);
  }

  /** Notifying the master changes no total. */
  lemma {:induction false} NotifySame(ts: seq<Thread>, us: seq<Thread>)
    requires |ts| == |us| && forall i :: 0 <= i < |ts| ==> us[i] == ts[i] || us[i] == Notified(ts[i])
    ensures Flying(us) == Flying(ts) && Tally(us, IdleOf) == Tally(ts, IdleOf)
    ensures Tally(us, InsideOf) == Tally(ts, InsideOf)
  {
    if ts != [] { NotifySame(ts[1..], us[1..]); }
  }

  /** A batch's result is recorded if it is the first; a stale one is never recorded. */
  lemma {:induction false} CleanUpResults(s: State, t: nat)
    requires Inv(s) && t < |s.threads| && Finished(s.threads[t])
    ensures Results(CleanUp(s, t))
  {
    hide Flying, Tally;
    var w := s.threads[t];
    var s' := CleanUp(s, t);
    FlyingMember(s.threads, t);
    assert ThreadOk(w, s.result);
    if w.local.Some? && s.result.None? {
      assert w.doWork && w.done > 0;
      assert w.batch[w.done - 1] in multiset(w.batch);
      assert w.batch[w.done - 1] in s.added;
    } else if s.result.None? {
      assert forall j :: 0 <= j < |w.batch| ==> w.batch[j].outcome.None?;
      assert forall c :: c in multiset(w.batch) ==> c in w.batch;
    }
  }

  lemma {:induction false} AddInv(s: State, checks: seq<Check>, woken: set<nat>, batchSize: nat)
    requires Inv(s) && Enabled(s, Add(checks, woken))
    ensures Inv(Apply(s, Add(checks, woken), batchSize))
  {
    hide Flying, Tally;
    NotifySame(s.threads, NotifyAll(s.threads, woken));
  }

  lemma {:induction false} CompleteInv(s: State, batchSize: nat)
    requires Inv(s) && Enabled(s, Complete)
    ensures Inv(Apply(s, Complete, batchSize))
  {
    hide Flying, Tally;
    OneThread(s, MASTER, Starting);
  }

  lemma {:induction false} RunCheckInv(s: State, t: nat, batchSize: nat)
    requires Inv(s) && Enabled(s, RunCheck(t))
    ensures Inv(Apply(s, RunCheck(t), batchSize))
  {
    var w := s.threads[t];
    var x := w.(done := w.done + 1, local := w.batch[w.done].outcome);
    RanOk(w, s.result);
    ThreadChanged(s, t, x);
  }

  /** A working thread may go on with its batch. */
  lemma {:induction false} ThreadChanged(s: State, t: nat, x: Thread)
    requires Inv(s) && t < |s.threads| && s.threads[t].Working? && x.Working? && x.batch == s.threads[t].batch
    requires ThreadOk(x, s.result)
    ensures Inv(s.(threads := s.threads[t := x]))
  {
    hide Flying, Tally, ThreadOk;
    OneThread(s, t, x);
    hide Results;
    SameResults(s, s.threads[t := x]);
  }

  lemma {:induction false} RanOk(w: Thread, result: Option<Result>)
    requires w.Working? && !Finished(w) && w.done < |w.batch| && ThreadOk(w, result)
    ensures ThreadOk(w.(done := w.done + 1, local := w.batch[w.done].outcome), result)
  {
  }

  lemma {:induction false} SameResults(s: State, ts: seq<Thread>)
    requires Results(s)
    ensures Results(s.(threads := ts))
  {
  }

  lemma {:induction false} EnterInv(s: State, t: nat, batchSize: nat)
    requires Inv(s) && Enabled(s, Enter(t))
    ensures Inv(Apply(s, Enter(t), batchSize))
  {
    hide LoopTop, CleanUp, Flying, Tally, Cost;
    if s.threads[t].Starting? {
      StartTop(s, t);
      LoopTopInv(s.(nTotal := s.nTotal + 1), t, None, batchSize);
    } else {
      CleanUpTop(s, t);
      LoopTopInv(CleanUp(s, t), t, LocalAfter(s, s.threads[t]), batchSize);
    }
  }

  lemma {:induction false} WakeInv(s: State, t: nat, batchSize: nat)
    requires Inv(s) && Enabled(s, Wake(t))
    ensures Inv(Apply(s, Wake(t), batchSize))
  {
    hide LoopTop, Flying, Tally, Cost;
    WakeTop(s, t);
    LoopTopInv(s.(nIdle := s.nIdle - 1, threads := s.threads[t := Starting]), t, s.threads[t].local, batchSize);
  }

  lemma {:induction false} StepInv(s: State, step: Step, batchSize: nat)
    requires Inv(s) && Enabled(s, step)
    ensures Inv(Apply(s, step, batchSize))
  {
    hide *;
    match step
    case Add(checks, woken) => AddInv(s, checks, woken, batchSize);
    case Complete => CompleteInv(s, batchSize);
    case RunCheck(t) => RunCheckInv(s, t, batchSize);
    case Enter(t) => EnterInv(s, t, batchSize);
    case Wake(t) => WakeInv(s, t, batchSize);
  }

  // ---- Whole runs ----

  /** A run: steps, and the states before and after each of them. */
  ghost predicate IsRun(run: seq<State>, steps: seq<Step>, batchSize: nat) {
    && |run| == |steps| + 1 && (exists workers: nat {:trigger Initial(workers)} :: run[0] == Initial(workers))
    && forall i {:trigger steps[i]} :: 0 <= i < |steps| ==> FollowsAt(run, steps, i, batchSize)
  }

  ghost predicate FollowsAt(run: seq<State>, steps: seq<Step>, i: nat, batchSize: nat)
    requires i < |steps| && |run| == |steps| + 1
  {
    Enabled(run[i], steps[i]) && run[i + 1] == Apply(run[i], steps[i], batchSize)
  }

  lemma {:induction false} RunInv(run: seq<State>, steps: seq<Step>, batchSize: nat, n: nat)
    requires IsRun(run, steps, batchSize) && n < |run|
    ensures Inv(run[n])
  {
    hide Inv, Apply, Enabled;
    if n == 0 {
      var workers: nat :| run[0] == Initial(workers);
      InitialInv(workers);
    } else {
      RunInv(run, steps, batchSize, n - 1);
      assert FollowsAt(run, steps, n - 1, batchSize);
      StepInv(run[n - 1], steps[n - 1], batchSize);
    }
  }

  // ---- Which checks a call of Complete is about ----

  /** The checks passed to Add since the last call of Complete. */
  function AddedSince(steps: seq<Step>): multiset<Check> {
    if steps == [] then multiset{} else
      var n := |steps| - 1;
      match steps[n]
      case Add(checks, _) => AddedSince(steps[..n]) + multiset(checks)
      case Complete => multiset{}
      case _ => AddedSince(steps[..n])
  }

  /** The checks passed to Add between the last two calls of Complete: those the last call is about. */
  function AddedFor(steps: seq<Step>): multiset<Check> {
    if steps == [] then multiset{} else
      var n := |steps| - 1;
      if steps[n].Complete? then AddedSince(steps[..n]) else AddedFor(steps[..n])
  }

  predicate MasterOutside(s: State) {
    s.threads != [] && s.threads[MASTER].Outside?
  }

  /** The history fields hold what the steps say. */
  ghost predicate Recorded(s: State, steps: seq<Step>) {
    if MasterOutside(s) then s.added == AddedSince(steps) && s.lastAdded == AddedFor(steps)
    else s.added == AddedFor(steps) && AddedSince(steps) == multiset{}
  }

  lemma {:induction false} SnocAdded(steps: seq<Step>, step: Step)
    ensures AddedSince(steps + [step]) ==
              if step.Add? then AddedSince(steps) + multiset(step.checks)
              else if step.Complete? then multiset{} else AddedSince(steps)
    ensures AddedFor(steps + [step]) == if step.Complete? then AddedSince(steps) else AddedFor(steps)
  {
    assert (steps + [step])[..|steps|] == steps;
  }

  /** The inner loop returns from Complete, or records nothing. */
  lemma {:induction false} LoopTopKeeps(s: State, t: nat, local: Option<Result>, batchSize: nat)
    requires t < |s.threads| && !s.threads[t].Outside?
    ensures var s' := LoopTop(s, t, local, batchSize);
            || (!MasterOutside(s) && MasterOutside(s') && s'.lastAdded == s.added && s'.added == multiset{})
            || (MasterOutside(s) == MasterOutside(s') && s'.added == s.added && s'.lastAdded == s.lastAdded)
  {
    hide BatchSize;
  }

  lemma {:induction false} CleanUpOutside(s: State, t: nat)
    requires t < |s.threads| && s.threads[t].Working?
    ensures var s' := CleanUp(s, t);
            && MasterOutside(s') == MasterOutside(s) && s'.added == s.added && s'.lastAdded == s.lastAdded
            && |s'.threads| == |s.threads| && !s'.threads[t].Outside?
  {
  }

  lemma {:induction false} StepRecorded(s: State, step: Step, batchSize: nat, steps: seq<Step>)
    requires Enabled(s, step) && Recorded(s, steps)
    ensures Recorded(Apply(s, step, batchSize), steps + [step])
  {
    hide AddedSince, AddedFor, LoopTop, CleanUp, NotifyOk, LocalAfter;
    SnocAdded(steps, step);
    match step
    case Enter(t) =>
      if s.threads[t].Starting? {
        LoopTopKeeps(s.(nTotal := s.nTotal + 1), t, None, batchSize);
      } else {
        CleanUpOutside(s, t);
        LoopTopKeeps(CleanUp(s, t), t, LocalAfter(s, s.threads[t]), batchSize);
      }
    case Wake(t) =>
      LoopTopKeeps(s.(nIdle := s.nIdle - 1, threads := s.threads[t := Starting]), t, s.threads[t].local, batchSize);
    case RunCheck(t) =>
    case Add(_, _) =>
    case Complete =>
  }

  lemma {:induction false} RunRecorded(run: seq<State>, steps: seq<Step>, batchSize: nat, n: nat)
    requires IsRun(run, steps, batchSize) && n < |run|
    ensures Recorded(run[n], steps[..n])
  {
    if n > 0 {
      hide Recorded, Apply, Enabled;
      RunRecorded(run, steps, batchSize, n - 1);
      assert FollowsAt(run, steps, n - 1, batchSize);
      StepRecorded(run[n - 1], steps[n - 1], batchSize, steps[..n - 1]);
      assert steps[..n] == steps[..n - 1] + [steps[n - 1]];
    }
  }

  /** In every state of every run the counter of unfinished checks is exact. Whenever the master is
      outside Complete, the last value it returned is nullopt exactly when every check passed to Add
      between the last two calls of Complete returned nullopt, and otherwise the result of one of them. */
  lemma {:induction false} RunCorrect(run: seq<State>, steps: seq<Step>, batchSize: nat, n: nat)
    requires IsRun(run, steps, batchSize) && n < |run|
    ensures run[n].nTodo == |run[n].queue| + |Flying(run[n].threads)|
    ensures MasterOutside(run[n]) ==> CorrectResult(AddedFor(steps[..n]), run[n].lastReturn)
  {
    RunInv(run, steps, batchSize, n);
    RunRecorded(run, steps, batchSize, n);
  }

  /** What Add was given for the current call of Complete is queued, in the hands of a thread, or finished. */
  lemma {:induction false} NoneLost(run: seq<State>, steps: seq<Step>, batchSize: nat, n: nat)
    requires IsRun(run, steps, batchSize) && n < |run|
    ensures var s := run[n];
            (if MasterOutside(s) then AddedSince(steps[..n]) else AddedFor(steps[..n]))
            == multiset(s.queue) + Flying(s.threads) + s.finished
  {
    RunInv(run, steps, batchSize, n);
    RunRecorded(run, steps, batchSize, n);
  }

  lemma {:induction false} LoopTopReturn(s: State, t: nat, local: Option<Result>, batchSize: nat)
    requires t < |s.threads| && !s.threads[MASTER].Outside? && LoopTop(s, t, local, batchSize).threads[MASTER].Outside?
    ensures LoopTop(s, t, local, batchSize).lastReturn == s.result && s.queue == [] && s.nTodo == 0
    ensures LoopTop(s, t, local, batchSize).queue == [] && LoopTop(s, t, local, batchSize).nTodo == 0
    ensures LoopTop(s, t, local, batchSize).result == None
  {
  }

  /** When Complete returns, every check it is about is finished, none is left over, and the status is
      reset. */
  lemma {:induction false} ReturnsSession(run: seq<State>, steps: seq<Step>, batchSize: nat, n: nat)
    requires IsRun(run, steps, batchSize) && n < |steps| && !MasterOutside(run[n]) && MasterOutside(run[n + 1])
    ensures run[n + 1].queue == [] && run[n + 1].nTodo == 0 && run[n + 1].result == None
    ensures Flying(run[n + 1].threads) == multiset{} && AddedSince(steps[..n + 1]) == multiset{}
    ensures CorrectResult(AddedFor(steps[..n + 1]), run[n + 1].lastReturn)
  {
    hide *;
    RunFollows(run, steps, batchSize, n);
    RunInv(run, steps, batchSize, n);
    RunInv(run, steps, batchSize, n + 1);
    RunCorrect(run, steps, batchSize, n + 1);
    RunRecorded(run, steps, batchSize, n);
    ReturnsFrom(run[n], steps[..n], steps[n], batchSize, run[n + 1]);
    assert steps[..n + 1] == steps[..n] + [steps[n]];
  }

  lemma {:induction false} RunFollows(run: seq<State>, steps: seq<Step>, batchSize: nat, n: nat)
    requires IsRun(run, steps, batchSize) && n < |steps|
    ensures |run| == |steps| + 1 && Enabled(run[n], steps[n]) && run[n + 1] == Apply(run[n], steps[n], batchSize)
  {
    assert FollowsAt(run, steps, n, batchSize);
  }

  lemma {:induction false} ReturnsFrom(s: State, past: seq<Step>, step: Step, batchSize: nat, s': State)
    requires Inv(s) && Inv(s') && Enabled(s, step) && s' == Apply(s, step, batchSize) && Recorded(s, past)
    requires !MasterOutside(s) && MasterOutside(s')
    ensures s'.queue == [] && s'.nTodo == 0 && s'.result == None
    ensures Flying(s'.threads) == multiset{} && AddedSince(past + [step]) == multiset{}
  {
    hide Inv, Apply, Enabled, AddedSince, AddedFor, Flying;
    HasMaster(s);
    StepReturns(s, step, batchSize, s');
    NoneFlying(s');
    SnocAdded(past, step);
  }

  lemma {:induction false} NoneFlying(s: State)
    requires Inv(s) && s.nTodo == 0
    ensures Flying(s.threads) == multiset{}
  {
    assert |Flying(s.threads)| == 0;
  }

  lemma {:induction false} StepReturns(s: State, step: Step, batchSize: nat, s': State)
    requires Inv(s) && Enabled(s, step) && s' == Apply(s, step, batchSize) && s'.threads != []
    requires !s.threads[MASTER].Outside? && s'.threads[MASTER].Outside?
    ensures s'.queue == [] && s'.nTodo == 0 && s'.result == None && !step.Add? && !step.Complete?
  {
    hide LoopTop, Inv, CleanUp, NotifyOk, LocalAfter;
    match step
    case Enter(t) =>
      if s.threads[t].Starting? {
        LoopTopReturn(s.(nTotal := s.nTotal + 1), t, None, batchSize);
      } else {
        CleanUpKeeps(s, t);
        LoopTopReturn(CleanUp(s, t), t, LocalAfter(s, s.threads[t]), batchSize);
      }
    case Wake(t) =>
      LoopTopReturn(s.(nIdle := s.nIdle - 1, threads := s.threads[t := Starting]), t, s.threads[t].local, batchSize);
    case RunCheck(t) =>
    case Add(_, _) =>
    case Complete =>
  }

  lemma {:induction false} CleanUpKeeps(s: State, t: nat)
    requires t < |s.threads| && s.threads[t].Working? && !s.threads[MASTER].Outside?
    ensures |CleanUp(s, t).threads| == |s.threads| && !CleanUp(s, t).threads[MASTER].Outside?
  {
  }

  // ---- Progress ----

  function CostOf(t: Thread): nat {
    match t
    case Outside => 0
    case Starting => 1
    case Working(batch, done, _, _) => (if done < |batch| then |batch| - done else 0) + 5
    case Waiting(notified, _) => if notified then 2 else 0
  }

  /** Bounds the steps left while nothing is added. */
  function Cost(s: State): nat {
    8 * |s.queue| + Tally(s.threads, CostOf)
  }

  /** A wake-up without a notification. */
  predicate Spurious(s: State, step: Step) {
    step.Wake? && step.t < |s.threads| && s.threads[step.t].Waiting? && !s.threads[step.t].notified
  }

  /** While the master is in Complete, some thread can take a step that is not a spurious wake-up:
      no wake-up of the master is lost. */
  lemma {:induction false} NoDeadlock(s: State)
    requires Inv(s) && !s.threads[MASTER].Outside?
    ensures exists step {:trigger Enabled(s, step)} ::
            Enabled(s, step) && !Spurious(s, step) && !step.Add? && !step.Complete?
  {
    var m := s.threads[MASTER];
    if m.Starting? {
      assert Enabled(s, Enter(MASTER)) && !Spurious(s, Enter(MASTER));
    } else if m.Working? {
      WorkingCanStep(s, MASTER);
    } else if m.notified {
      assert Enabled(s, Wake(MASTER)) && !Spurious(s, Wake(MASTER));
    } else {
      var t := SomeoneWorks(s.threads);
      WorkingCanStep(s, t);
    }
  }

  lemma {:induction false} WorkingCanStep(s: State, t: nat)
    requires Inv(s) && t < |s.threads| && s.threads[t].Working?
    ensures exists step {:trigger Enabled(s, step)} ::
            Enabled(s, step) && !Spurious(s, step) && !step.Add? && !step.Complete?
  {
    assert ThreadOk(s.threads[t], s.result);
    if Finished(s.threads[t]) {
      assert Enabled(s, Enter(t)) && !Spurious(s, Enter(t));
    } else {
      assert Enabled(s, RunCheck(t)) && !Spurious(s, RunCheck(t));
    }
  }

  lemma {:induction false} SomeoneWorks(ts: seq<Thread>) returns (t: nat)
    requires |Flying(ts)| > 0
    ensures t < |ts| && ts[t].Working?
  {
    if ts[0].Working? {
      t := 0;
    } else {
      t := SomeoneWorks(ts[1..]);
      t := t + 1;
    }
  }

  lemma {:induction false} LoopTopCost(s: State, t: nat, local: Option<Result>, batchSize: nat)
    requires AtTop(s, t, 1)
    ensures Cost(LoopTop(s, t, local, batchSize)) + 1 <= Cost(s)
  {
    hide Flying, Tally;
    var x := LoopTop(s, t, local, batchSize).threads[t];
    if s.queue != [] { BatchFits(s, batchSize); }
    TallyUpdate(s.threads, t, x, CostOf);
  }

  /** Every other step is one of finitely many: so Complete returns under any scheduling. */
  lemma {:induction false} CostFalls(s: State, step: Step, batchSize: nat)
    requires Inv(s) && Enabled(s, step) && !Spurious(s, step) && !step.Add? && !step.Complete?
    ensures Cost(Apply(s, step, batchSize)) < Cost(s)
  {
    hide Inv, Cost, LoopTop, CleanUp;
    match step
    case RunCheck(t) => RunCheckCost(s, t, batchSize);
    case Enter(t) =>
      if s.threads[t].Starting? {
        StartTop(s, t);
        LoopTopCost(s.(nTotal := s.nTotal + 1), t, None, batchSize);
      } else {
        CleanUpTop(s, t);
        CleanUpCost(s, t);
        LoopTopCost(CleanUp(s, t), t, LocalAfter(s, s.threads[t]), batchSize);
      }
    case Wake(t) =>
      WakeTop(s, t);
      LoopTopCost(s.(nIdle := s.nIdle - 1, threads := s.threads[t := Starting]), t, s.threads[t].local, batchSize);
  }

  lemma {:induction false} RunCheckCost(s: State, t: nat, batchSize: nat)
    requires Enabled(s, RunCheck(t))
    ensures Cost(Apply(s, RunCheck(t), batchSize)) < Cost(s)
  {
    hide Tally;
    TallyUpdate(s.threads, t, Apply(s, RunCheck(t), batchSize).threads[t], CostOf);
  }

  lemma {:induction false} StartTop(s: State, t: nat)
    requires Inv(s) && t < |s.threads| && s.threads[t].Starting?
    ensures AtTop(s.(nTotal := s.nTotal + 1), t, 1) && Cost(s.(nTotal := s.nTotal + 1)) == Cost(s)
  {
    hide Flying, Tally;
  }

  lemma {:induction false} WakeTop(s: State, t: nat)
    requires Inv(s) && t < |s.threads| && s.threads[t].Waiting?
    ensures var s0 := s.(nIdle := s.nIdle - 1, threads := s.threads[t := Starting]);
            AtTop(s0, t, 1) && (s.threads[t].notified ==> Cost(s0) <= Cost(s))
  {
    hide Flying, Tally;
    OneThread(s, t, Starting);
    TallyUpdate(s.threads, t, Starting, CostOf);
  }

  lemma {:induction false} CleanUpCost(s: State, t: nat)
    requires Inv(s) && t < |s.threads| && Finished(s.threads[t])
    ensures Cost(CleanUp(s, t)) < Cost(s)
  {
    hide Flying;
    var ts := s.threads[t := Starting];
    TallyUpdate(s.threads, t, Starting, CostOf);
    TallyUpdate(ts, MASTER, Notified(ts[MASTER]), CostOf);
  }

  ghost predicate Works(s: State, s': State, batchSize: nat) {
    exists step {:trigger Enabled(s, step)} ::
      Enabled(s, step) && !Spurious(s, step) && !step.Add? && !step.Complete? && s' == Apply(s, step, batchSize)
  }

  ghost predicate WorksAt(run: seq<State>, i: nat, batchSize: nat)
    requires 0 < i < |run|
  {
    Works(run[i - 1], run[i], batchSize)
  }

  ghost predicate Stuck(s: State, batchSize: nat) {
    forall s' {:trigger Works(s, s', batchSize)} :: !Works(s, s', batchSize)
  }

  /** Where no such step is left, Complete has returned. */
  lemma {:induction false} StuckReturned(s: State, batchSize: nat)
    requires Inv(s) && Stuck(s, batchSize)
    ensures s.threads != [] && s.threads[MASTER].Outside?
  {
    HasMaster(s);
    hide Inv, Works;
    if !s.threads[MASTER].Outside? {
      var s' := CanWork(s, batchSize);
      assert false;
    }
  }

  lemma {:induction false} CanWork(s: State, batchSize: nat) returns (s': State)
    requires Inv(s) && s.threads != [] && !s.threads[MASTER].Outside?
    ensures Works(s, s', batchSize)
  {
    hide Inv, Apply, Enabled, Spurious;
    NoDeadlock(s);
    var step :| Enabled(s, step) && !Spurious(s, step) && !step.Add? && !step.Complete?;
    s' := Apply(s, step, batchSize);
  }

  /** However the threads are scheduled, at most Cost such steps follow each other: Complete
      returns. */
  lemma {:induction false} CompleteReturns(run: seq<State>, batchSize: nat)
    requires run != [] && Inv(run[0]) && forall i {:trigger run[i]} :: 0 < i < |run| ==> WorksAt(run, i, batchSize)
    ensures |run| - 1 + Cost(run[|run| - 1]) <= Cost(run[0]) && Inv(run[|run| - 1])
    decreases |run|
  {
    hide Cost, Inv, Apply, Enabled, Spurious;
    var n := |run| - 1;
    if n > 0 {
      assert WorksAt(run, n, batchSize);
      forall i | 0 < i < |run[..n]| ensures WorksAt(run[..n], i, batchSize) {
        assert WorksAt(run, i, batchSize);
      }
      CompleteReturns(run[..n], batchSize);
      WorksFalls(run[n - 1], run[n], batchSize);
    }
  }

  lemma {:induction false} WorksFalls(s: State, s': State, batchSize: nat)
    requires Inv(s) && Works(s, s', batchSize)
    ensures Inv(s') && Cost(s') < Cost(s)
  {
    hide Cost, Inv, Apply;
    var step :| Enabled(s, step) && !Spurious(s, step) && !step.Add? && !step.Complete?
        && s' == Apply(s, step, batchSize);
    StepInv(s, step, batchSize);
    CostFalls(s, step, batchSize);
  }

  lemma {:induction false} HasMaster(s: State)
    requires Inv(s)
    ensures s.threads != []
  {
  }
}
