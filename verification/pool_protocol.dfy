/**
  The thread pool as a transition system.  One action is one critical section, one test of
  `running` outside the mutex, or one event of the platform (a timeout, a spurious wake-up).
 */
module PoolProtocol {
  import opened InfraTypes
  import opened PoolSections

  /** Where a worker thread is.  Exited has counted itself out; LeftLoop returned by the test of
      `running` and has not. */
  datatype Worker =
    | Fresh      // about to test `running`
    | Locking    // found it true, about to take the mutex
    | Waiting    // in the timed wait on not_empty
    | Signalled  // woken, about to take the mutex back
    | TimedOut   // the wait timed out, about to take the mutex back
    | Active     // running a task, without the mutex
    | Exited
    | LeftLoop

  datatype Submitter =
    | Calling  // about to take the mutex
    | Blocked  // waiting on not_full
    | Woken    // woken, about to take the mutex back
    | Done(status: Status)

  datatype Phase = Open | Closing | Draining | Freed

  /** wants[j] is the task of submitter j.  submitted and started are history: accepted tasks, and
      tasks handed to a worker. */
  datatype State = State(
    shared: Shared, workers: seq<Worker>, submitters: seq<Submitter>, wants: seq<Task>, phase: Phase,
    submitted: seq<Task>, started: seq<Task>)

  datatype Action =
    | TestRunning(i: nat)
    | Enter(i: nat)
    | Expire(i: nat)
    | WakeWorker(i: nat)                  // spurious
    | Finish(i: nat, wake: Option<nat>)
    | Call(task: Task)
    | Submit(j: nat, wake: Option<nat>, gotNode: bool, gotThread: bool)
    | WakeSubmitter(j: nat)               // spurious
    | Destroy
    | Broadcast
    | Reap

  function Init(c: Config): State {
    State(Shared(c.minThreads, 0, [], true, false), seq(c.minThreads, _ => Fresh), [], [], Open, [], [])
  }

  /** A signal wakes one waiter, any one, if there is one. */
  predicate SignalsWorker(ws: seq<Worker>, wake: Option<nat>) {
    if wake.Some? then wake.value < |ws| && ws[wake.value] == Waiting
    else Waiting !in ws
  }

  predicate SignalsSubmitter(js: seq<Submitter>, wake: Option<nat>) {
    if wake.Some? then wake.value < |js| && js[wake.value] == Blocked
    else Blocked !in js
  }

  function NotifyWorker(ws: seq<Worker>, wake: Option<nat>): seq<Worker>
    requires wake.Some? ==> wake.value < |ws|
  {
    if wake.Some? then ws[wake.value := Signalled] else ws
  }

  function NotifySubmitter(js: seq<Submitter>, wake: Option<nat>): seq<Submitter>
    requires wake.Some? ==> wake.value < |js|
  {
    if wake.Some? then js[wake.value := Woken] else js
  }

  function Turn(c: Config, s: State, j: nat, gotNode: bool, gotThread: bool): (Shared, SubmitMove)
    requires j < |s.wants|
  {
    SubmitTurn(c, s.shared, s.wants[j], gotNode, gotThread)
  }

  predicate Accepts(c: Config, s: State, j: nat, gotNode: bool, gotThread: bool)
    requires j < |s.wants|
  {
    var m := Turn(c, s, j, gotNode, gotThread).1;
    m.Return? && m.status == OK
  }

  predicate Enabled(c: Config, s: State, a: Action) {
    && !s.phase.Freed?
    && match a
       case TestRunning(i) => i < |s.workers| && s.workers[i].Fresh?
       case Enter(i) => i < |s.workers| && (s.workers[i].Locking? || s.workers[i].Signalled? || s.workers[i].TimedOut?)
       case Expire(i) => i < |s.workers| && s.workers[i].Waiting?
       case WakeWorker(i) => i < |s.workers| && s.workers[i].Waiting?
       case Finish(i, wake) =>
         && i < |s.workers| && s.workers[i].Active?
         && (if FinishTurn(c, s.shared).1 then SignalsSubmitter(s.submitters, wake) else wake.None?)
       case Call(_) => true
       case Submit(j, wake, gotNode, gotThread) =>
         && j < |s.submitters| == |s.wants| && (s.submitters[j].Calling? || s.submitters[j].Woken?)
         && (if Accepts(c, s, j, gotNode, gotThread) then SignalsWorker(s.workers, wake) else wake.None?)
       case WakeSubmitter(j) => j < |s.submitters| && s.submitters[j].Blocked?
       case Destroy => s.phase.Open?
       case Broadcast => s.phase.Closing?
       case Reap => s.phase.Draining? && s.shared.threadCount == 0
  }

  function EnterStep(c: Config, s: State, i: nat): State
    requires i < |s.workers|
  {
    var (sh, move) := WorkerTurn(c, s.shared, s.workers[i].TimedOut?);
    match move
    case Wait => s.(shared := sh, workers := s.workers[i := Waiting])
    case Exit => s.(shared := sh, workers := s.workers[i := Exited])
    case Start(t) => s.(shared := sh, workers := s.workers[i := Active], started := s.started + [t])
  }

  function SubmitStep(c: Config, s: State, j: nat, wake: Option<nat>, gotNode: bool, gotThread: bool): State
    requires Enabled(c, s, Submit(j, wake, gotNode, gotThread))
  {
    var (sh, move) := Turn(c, s, j, gotNode, gotThread);
    match move
    case Block => s.(shared := sh, submitters := s.submitters[j := Blocked])
    case Return(status, spawned) =>
      var out := s.(shared := sh, submitters := s.submitters[j := Done(status)]);
      if status == OK then
        out.(workers := NotifyWorker(s.workers, wake) + (if spawned then [Fresh] else []),
             submitted := s.submitted + [s.wants[j]])
      else out
  }

  function WakeAllWorkers(ws: seq<Worker>): seq<Worker> {
    seq(|ws|, i requires 0 <= i < |ws| => if ws[i].Waiting? then Signalled else ws[i])
  }

  function WakeAllSubmitters(js: seq<Submitter>): seq<Submitter> {
    seq(|js|, j requires 0 <= j < |js| => if js[j].Blocked? then Woken else js[j])
  }

  function Apply(c: Config, s: State, a: Action): State
    requires Enabled(c, s, a)
  {
    match a
    case TestRunning(i) => s.(workers := s.workers[i := if s.shared.running then Locking else LeftLoop])
    case Enter(i) => EnterStep(c, s, i)
    case Expire(i) => s.(workers := s.workers[i := TimedOut])
    case WakeWorker(i) => s.(workers := s.workers[i := Signalled])
    case Finish(i, wake) =>
      s.(shared := FinishTurn(c, s.shared).0, workers := s.workers[i := Fresh],
         submitters := NotifySubmitter(s.submitters, wake))
    case Call(t) => s.(submitters := s.submitters + [Calling], wants := s.wants + [t])
    case Submit(j, wake, gotNode, gotThread) => SubmitStep(c, s, j, wake, gotNode, gotThread)
    case WakeSubmitter(j) => s.(submitters := s.submitters[j := Woken])
    case Destroy => s.(shared := DestroyTurn(s.shared), phase := Closing)
    case Broadcast =>
      s.(workers := WakeAllWorkers(s.workers), submitters := WakeAllSubmitters(s.submitters), phase := Draining)
    case Reap => s.(shared := s.shared.(queue := []), phase := Freed)
  }

  // ------------------------------------------------------------ runs

  predicate ValidRun(c: Config, s: State, run: seq<Action>)
    decreases |run|
  {
    run == [] || (Enabled(c, s, run[0]) && ValidRun(c, Apply(c, s, run[0]), run[1..]))
  }

  function Execute(c: Config, s: State, run: seq<Action>): State
    requires ValidRun(c, s, run)
    decreases |run|
  {
    if run == [] then s else Execute(c, Apply(c, s, run[0]), run[1..])
  }

  // ------------------------------------------------------------ counting threads

  function Count(ws: seq<Worker>, w: Worker): nat { multiset(ws)[w] }

  /** Threads that may still touch the pool. */
  function Live(ws: seq<Worker>): nat {
    Count(ws, Fresh) + Count(ws, Locking) + Count(ws, Waiting) + Count(ws, Signalled)
    + Count(ws, TimedOut) + Count(ws, Active)
  }

  function CountJ(js: seq<Submitter>, j: Submitter): nat { multiset(js)[j] }

  // ------------------------------------------------------------ the invariant

  /** thread_count is the threads that may touch the pool, plus those that left uncounted. */
  predicate CountersHonest(c: Config, s: State) {
    && s.shared.threadCount == Live(s.workers) + Count(s.workers, LeftLoop)
    && s.shared.activeCount == Count(s.workers, Active)
    && |s.shared.queue| <= c.queueSize
    && s.shared.threadCount <= c.maxThreads
    && (s.shared.running || s.shared.queue != [] ==> c.minThreads <= s.shared.threadCount)
    && (s.shared.running ==> Count(s.workers, LeftLoop) == 0)
  }

  predicate PhaseHonest(s: State) {
    && (s.shared.running <==> s.phase.Open?) && s.shared.shuttingDown == !s.shared.running
    && (s.phase.Draining? || s.phase.Freed? ==> Count(s.workers, Waiting) == 0)
    && (s.phase.Freed? ==> s.shared.threadCount == 0)
    && |s.submitters| == |s.wants|
  }

  /** First in, first out, and each task once. */
  predicate InOrder(s: State) {
    if s.phase.Freed? then s.started <= s.submitted else s.submitted == s.started + s.shared.queue
  }

  /** Every queued task has a woken worker coming for it as long as some worker sleeps. */
  predicate WakesWorkers(s: State) {
    s.shared.running && Count(s.workers, Waiting) > 0 ==> |s.shared.queue| <= Count(s.workers, Signalled)
  }

  predicate Inv(c: Config, s: State) {
    CountersHonest(c, s) && PhaseHonest(s) && InOrder(s) && WakesWorkers(s)
  }

  lemma {:induction false} AllFresh(n: nat)
    ensures multiset(seq(n, _ => Fresh)) == multiset{}[Fresh := n]
  {
    if n > 0 {
      AllFresh(n - 1);
      assert seq(n, _ => Fresh) == seq(n - 1, _ => Fresh) + [Fresh];
    }
  }

  lemma InitInv(c: Config)
    requires ValidConfig(c)
    ensures Inv(c, Init(c))
  {
    AllFresh(c.minThreads);
  }

  function One(b: bool): nat { if b then 1 else 0 }

  lemma CountSet(ws: seq<Worker>, i: nat, w: Worker)
    requires i < |ws|
    ensures forall x {:trigger Count(ws[i := w], x)} ::
              Count(ws[i := w], x) == Count(ws, x) - One(ws[i] == x) + One(w == x)
    ensures Live(ws[i := w]) == Live(ws) - One(ws[i] != Exited && ws[i] != LeftLoop) + One(w != Exited && w != LeftLoop)
    ensures Count(ws, ws[i]) > 0
  {
    assert multiset(ws[i := w]) == multiset(ws) - multiset{ws[i]} + multiset{w};
    assert ws[i] in ws;
    forall x
      ensures Count(ws[i := w], x) == Count(ws, x) - One(ws[i] == x) + One(w == x)
    {
    }
    LiveShift(ws, ws[i := w], ws[i], w);
  }

  lemma LiveShift(ws: seq<Worker>, vs: seq<Worker>, a: Worker, b: Worker)
    requires forall x :: Count(vs, x) == Count(ws, x) - One(a == x) + One(b == x)
    ensures Live(vs) == Live(ws) - One(a != Exited && a != LeftLoop) + One(b != Exited && b != LeftLoop)
  {
  }

  lemma EnterInv(c: Config, s: State, i: nat)
    requires ValidConfig(c) && Inv(c, s) && Enabled(c, s, Enter(i))
    ensures Inv(c, Apply(c, s, Enter(i)))
  {
    match WorkerTurn(c, s.shared, s.workers[i].TimedOut?).1
    case Wait => WaitInv(c, s, i);
    case Exit => ExitInv(c, s, i);
    case Start(_) => StartInv(c, s, i);
  }

  lemma WaitInv(c: Config, s: State, i: nat)
    requires ValidConfig(c) && Inv(c, s) && Enabled(c, s, Enter(i))
    requires WorkerTurn(c, s.shared, s.workers[i].TimedOut?).1 == Wait
    ensures Inv(c, Apply(c, s, Enter(i)))
  {
    CountSet(s.workers, i, Waiting);
  }

  lemma ExitInv(c: Config, s: State, i: nat)
    requires ValidConfig(c) && Inv(c, s) && Enabled(c, s, Enter(i))
    requires WorkerTurn(c, s.shared, s.workers[i].TimedOut?).1 == Exit
    ensures Inv(c, Apply(c, s, Enter(i)))
  {
    CountSet(s.workers, i, Exited);
  }

  lemma StartInv(c: Config, s: State, i: nat)
    requires ValidConfig(c) && Inv(c, s) && Enabled(c, s, Enter(i))
    requires WorkerTurn(c, s.shared, s.workers[i].TimedOut?).1.Start?
    ensures Inv(c, Apply(c, s, Enter(i)))
  {
    StartCounters(c, s, i);
    assert s.shared.queue == [s.shared.queue[0]] + s.shared.queue[1..];
    assert s.started + s.shared.queue == s.started + [s.shared.queue[0]] + s.shared.queue[1..];
  }

  lemma StartCounters(c: Config, s: State, i: nat)
    requires ValidConfig(c) && Inv(c, s) && Enabled(c, s, Enter(i))
    requires WorkerTurn(c, s.shared, s.workers[i].TimedOut?).1.Start?
    ensures var r := Apply(c, s, Enter(i)); CountersHonest(c, r) && PhaseHonest(r) && WakesWorkers(r)
  {
    CountSet(s.workers, i, Active);
  }

  lemma TestRunningInv(c: Config, s: State, i: nat)
    requires ValidConfig(c) && Inv(c, s) && Enabled(c, s, TestRunning(i))
    ensures Inv(c, Apply(c, s, TestRunning(i)))
  {
    CountSet(s.workers, i, if s.shared.running then Locking else LeftLoop);
  }

  lemma ExpireInv(c: Config, s: State, i: nat)
    requires ValidConfig(c) && Inv(c, s) && Enabled(c, s, Expire(i))
    ensures Inv(c, Apply(c, s, Expire(i)))
  {
    CountSet(s.workers, i, TimedOut);
  }

  lemma WakeWorkerInv(c: Config, s: State, i: nat)
    requires ValidConfig(c) && Inv(c, s) && Enabled(c, s, WakeWorker(i))
    ensures Inv(c, Apply(c, s, WakeWorker(i)))
  {
    CountSet(s.workers, i, Signalled);
  }

  lemma CountSetJ(js: seq<Submitter>, i: nat, j: Submitter)
    requires i < |js|
    ensures forall x {:trigger CountJ(js[i := j], x)} ::
              CountJ(js[i := j], x) == CountJ(js, x) - One(js[i] == x) + One(j == x)
    ensures CountJ(js, js[i]) > 0
  {
    assert multiset(js[i := j]) == multiset(js) - multiset{js[i]} + multiset{j};
    assert js[i] in js;
  }

  /** A signal of not_full: a blocked submitter, if any, is now on its way. */
  lemma NotifyCounts(js: seq<Submitter>, wake: Option<nat>)
    requires SignalsSubmitter(js, wake)
    ensures var n := NotifySubmitter(js, wake);
      && CountJ(n, Blocked) == CountJ(js, Blocked) - One(wake.Some?)
      && CountJ(n, Woken) == CountJ(js, Woken) + One(wake.Some?)
      && (wake.None? ==> CountJ(js, Blocked) == 0)
  {
    if wake.Some? {
      CountSetJ(js, wake.value, Woken);
    }
  }

  lemma FinishInv(c: Config, s: State, i: nat, wake: Option<nat>)
    requires ValidConfig(c) && Inv(c, s) && Enabled(c, s, Finish(i, wake))
    ensures Inv(c, Apply(c, s, Finish(i, wake)))
  {
    CountSet(s.workers, i, Fresh);
    if |s.shared.queue| < c.queueSize {
      NotifyCounts(s.submitters, wake);
    }
  }

  lemma CallInv(c: Config, s: State, t: Task)
    requires ValidConfig(c) && Inv(c, s) && Enabled(c, s, Call(t))
    ensures Inv(c, Apply(c, s, Call(t)))
  {
    assert multiset(s.submitters + [Calling]) == multiset(s.submitters) + multiset{Calling};
  }

  lemma WakeSubmitterInv(c: Config, s: State, j: nat)
    requires ValidConfig(c) && Inv(c, s) && Enabled(c, s, WakeSubmitter(j))
    ensures Inv(c, Apply(c, s, WakeSubmitter(j)))
  {
    CountSetJ(s.submitters, j, Woken);
  }

  /** A submitter that does not get its task in. */
  lemma RefuseInv(c: Config, s: State, j: nat, wake: Option<nat>, gotNode: bool, gotThread: bool)
    requires ValidConfig(c) && Inv(c, s) && Enabled(c, s, Submit(j, wake, gotNode, gotThread))
    requires !Accepts(c, s, j, gotNode, gotThread)
    ensures Inv(c, Apply(c, s, Submit(j, wake, gotNode, gotThread)))
  {
    match Turn(c, s, j, gotNode, gotThread).1
    case Block => CountSetJ(s.submitters, j, Blocked);
    case Return(status, _) => CountSetJ(s.submitters, j, Done(status));
  }

  lemma AppendFresh(ws: seq<Worker>)
    ensures forall x {:trigger Count(ws + [Fresh], x)} :: Count(ws + [Fresh], x) == Count(ws, x) + One(x == Fresh)
    ensures Live(ws + [Fresh]) == Live(ws) + 1
  {
    assert multiset(ws + [Fresh]) == multiset(ws) + multiset{Fresh};
  }

  /** A signal of not_empty: a waiting worker, if any, is now on its way. */
  lemma NotifyWorkerCounts(ws: seq<Worker>, wake: Option<nat>)
    requires SignalsWorker(ws, wake)
    ensures var n := NotifyWorker(ws, wake);
      && Live(n) == Live(ws) && Count(n, LeftLoop) == Count(ws, LeftLoop) && Count(n, Active) == Count(ws, Active)
      && Count(n, Waiting) == Count(ws, Waiting) - One(wake.Some?)
      && Count(n, Signalled) == Count(ws, Signalled) + One(wake.Some?)
      && (wake.None? ==> Count(ws, Waiting) == 0)
  {
    if wake.Some? {
      CountSet(ws, wake.value, Signalled);
    }
  }

  lemma GrowCounts(ws: seq<Worker>, grow: bool)
    ensures var n := ws + (if grow then [Fresh] else []);
      && Live(n) == Live(ws) + One(grow) && Count(n, LeftLoop) == Count(ws, LeftLoop)
      && Count(n, Active) == Count(ws, Active)
      && Count(n, Waiting) == Count(ws, Waiting) && Count(n, Signalled) == Count(ws, Signalled)
  {
    AppendFresh(ws);
    assert ws + [] == ws;
  }

  lemma AcceptCounters(c: Config, s: State, j: nat, wake: Option<nat>, gotNode: bool, gotThread: bool)
    requires ValidConfig(c) && Inv(c, s) && Enabled(c, s, Submit(j, wake, gotNode, gotThread))
    requires Accepts(c, s, j, gotNode, gotThread)
    ensures var r := Apply(c, s, Submit(j, wake, gotNode, gotThread));
      CountersHonest(c, r) && PhaseHonest(r) && InOrder(r)
  {
    var (sh, move) := Turn(c, s, j, gotNode, gotThread);
    NotifyWorkerCounts(s.workers, wake);
    GrowCounts(NotifyWorker(s.workers, wake), move.spawned);
    assert s.submitted + [s.wants[j]] == s.started + sh.queue;
  }

  lemma AcceptWakes(c: Config, s: State, j: nat, wake: Option<nat>, gotNode: bool, gotThread: bool)
    requires ValidConfig(c) && Inv(c, s) && Enabled(c, s, Submit(j, wake, gotNode, gotThread))
    requires Accepts(c, s, j, gotNode, gotThread)
    ensures var r := Apply(c, s, Submit(j, wake, gotNode, gotThread));
      WakesWorkers(r)
  {
    CountSetJ(s.submitters, j, Done(OK));
    NotifyWorkerCounts(s.workers, wake);
    GrowCounts(NotifyWorker(s.workers, wake), Turn(c, s, j, gotNode, gotThread).1.spawned);
  }

  lemma AcceptInv(c: Config, s: State, j: nat, wake: Option<nat>, gotNode: bool, gotThread: bool)
    requires ValidConfig(c) && Inv(c, s) && Enabled(c, s, Submit(j, wake, gotNode, gotThread))
    requires Accepts(c, s, j, gotNode, gotThread)
    ensures Inv(c, Apply(c, s, Submit(j, wake, gotNode, gotThread)))
  {
    AcceptCounters(c, s, j, wake, gotNode, gotThread);
    AcceptWakes(c, s, j, wake, gotNode, gotThread);
  }

  lemma DestroyInv(c: Config, s: State)
    requires ValidConfig(c) && Inv(c, s) && Enabled(c, s, Destroy)
    ensures Inv(c, Apply(c, s, Destroy))
  {
  }

  lemma {:induction false} WakeAllCounts(ws: seq<Worker>)
    ensures multiset(WakeAllWorkers(ws)) ==
            multiset(ws)[Waiting := 0][Signalled := Count(ws, Signalled) + Count(ws, Waiting)]
  {
    if ws != [] {
      var n := |ws| - 1;
      WakeAllCounts(ws[..n]);
      assert ws == ws[..n] + [ws[n]];
      assert WakeAllWorkers(ws) == WakeAllWorkers(ws[..n]) + [if ws[n].Waiting? then Signalled else ws[n]];
    }
  }

  lemma BroadcastInv(c: Config, s: State)
    requires ValidConfig(c) && Inv(c, s) && Enabled(c, s, Broadcast)
    ensures Inv(c, Apply(c, s, Broadcast))
  {
    WakeAllCounts(s.workers);
  }

  lemma ReapInv(c: Config, s: State)
    requires ValidConfig(c) && Inv(c, s) && Enabled(c, s, Reap)
    ensures Inv(c, Apply(c, s, Reap))
  {
  }

  lemma StepInv(c: Config, s: State, a: Action)
    requires ValidConfig(c) && Inv(c, s) && Enabled(c, s, a)
    ensures Inv(c, Apply(c, s, a))
  {
    match a
    case TestRunning(i) => TestRunningInv(c, s, i);
    case Enter(i) => EnterInv(c, s, i);
    case Expire(i) => ExpireInv(c, s, i);
    case WakeWorker(i) => WakeWorkerInv(c, s, i);
    case Finish(i, wake) => FinishInv(c, s, i, wake);
    case Call(t) => CallInv(c, s, t);
    case Submit(j, wake, gotNode, gotThread) =>
      if Accepts(c, s, j, gotNode, gotThread) {
        AcceptInv(c, s, j, wake, gotNode, gotThread);
      } else {
        RefuseInv(c, s, j, wake, gotNode, gotThread);
      }
    case WakeSubmitter(j) => WakeSubmitterInv(c, s, j);
    case Destroy => DestroyInv(c, s);
    case Broadcast => BroadcastInv(c, s);
    case Reap => ReapInv(c, s);
  }

  lemma {:induction false} RunInv(c: Config, s: State, run: seq<Action>)
    requires ValidConfig(c) && Inv(c, s) && ValidRun(c, s, run)
    ensures Inv(c, Execute(c, s, run))
    decreases |run|
  {
    if run != [] {
      StepInv(c, s, run[0]);
      RunInv(c, Apply(c, s, run[0]), run[1..]);
    }
  }
}
