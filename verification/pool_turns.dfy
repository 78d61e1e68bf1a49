/** What a worker and a submitter do in one turn with the mutex, and how the pool grows and shrinks. */
module PoolTurns {
  import opened InfraTypes
  import opened PoolSections
  import opened PoolProtocol
  import opened PoolLaws

  /** A worker with the mutex: after a timeout it leaves if there are more than minThreads, whatever is
      queued.  Otherwise it takes the first task, or with none waits in a running pool and leaves a
      closing one. */
  lemma EnterOutcome(c: Config, s: State, i: nat)
    requires ValidConfig(c) && Inv(c, s) && Enabled(c, s, Enter(i))
    ensures var r, was, now := Apply(c, s, Enter(i)), s.shared, Apply(c, s, Enter(i)).shared;
      && r.workers == s.workers[i := r.workers[i]] && r.submitters == s.submitters && r.phase == s.phase
      && now.running == was.running && now.shuttingDown == was.shuttingDown
      && if s.workers[i].TimedOut? && was.threadCount > c.minThreads then
           && r.workers[i] == Exited && now.threadCount == was.threadCount - 1
           && now.queue == was.queue && now.activeCount == was.activeCount && r.started == s.started
         else if was.queue != [] then
           && r.workers[i] == Active && now.queue == was.queue[1..] && r.started == s.started + [was.queue[0]]
           && now.activeCount == was.activeCount + 1 && now.threadCount == was.threadCount
         else if s.phase.Open? then
           r.workers[i] == Waiting && now == was && r.started == s.started
         else
           && r.workers[i] == Exited && now.threadCount == was.threadCount - 1
           && now.queue == [] && now.activeCount == was.activeCount && r.started == s.started
  {
  }

  /** A submitter with the mutex: it is turned away from a closing pool, waits at a full queue, gives up
      without memory, and otherwise its task is the last of the queue. */
  lemma SubmitOutcome(c: Config, s: State, j: nat, wake: Option<nat>, gotNode: bool, gotThread: bool)
    requires ValidConfig(c) && Inv(c, s) && Enabled(c, s, Submit(j, wake, gotNode, gotThread))
    ensures var r := Apply(c, s, Submit(j, wake, gotNode, gotThread));
      && r.submitters == s.submitters[j := if !s.phase.Open? then Done(NOT_READY)
                                           else if |s.shared.queue| == c.queueSize then Blocked
                                           else if !gotNode then Done(NO_MEMORY) else Done(OK)]
      && r.phase == s.phase && r.started == s.started && r.shared.activeCount == s.shared.activeCount
      && if r.submitters[j] == Done(OK) then r.shared.queue == s.shared.queue + [s.wants[j]]
         else r.shared == s.shared && r.workers == s.workers
  {
  }

  // ------------------------------------------------------------ growing

  /** A worker that is neither in a task nor gone. */
  predicate Spare(w: Worker) { !w.Active? && !w.Exited? && !w.LeftLoop? }

  lemma SpareWorkers(ws: seq<Worker>)
    ensures Live(ws) > Count(ws, Active) <==> exists i :: 0 <= i < |ws| && Spare(ws[i])
  {
    FindWorker(ws, Fresh);
    FindWorker(ws, Locking);
    FindWorker(ws, Waiting);
    FindWorker(ws, Signalled);
    FindWorker(ws, TimedOut);
    if i: nat :| i < |ws| && Spare(ws[i]) {
      FindWorker(ws, ws[i]);
    }
  }

  /** An accepted submission starts a thread if and only if no worker was spare, the pool may have one more
      thread and the platform starts it; then the one new worker is at the end of the list. */
  lemma SubmissionGrows(c: Config, s: State, j: nat, wake: Option<nat>, gotNode: bool, gotThread: bool)
    requires ValidConfig(c) && Inv(c, s) && Enabled(c, s, Submit(j, wake, gotNode, gotThread))
    requires Apply(c, s, Submit(j, wake, gotNode, gotThread)).submitters[j] == Done(OK)
    ensures var r := Apply(c, s, Submit(j, wake, gotNode, gotThread));
      var grows := (forall i :: 0 <= i < |s.workers| ==> !Spare(s.workers[i]))
                   && s.shared.threadCount < c.maxThreads && gotThread;
      && r.shared.threadCount == s.shared.threadCount + (if grows then 1 else 0)
      && |r.workers| == |s.workers| + (if grows then 1 else 0) && (grows ==> r.workers == s.workers + [Fresh])
  {
    SpareWorkers(s.workers);
  }

  /** So after a submission that can start threads some worker is spare, or there are maxThreads. */
  lemma SubmissionFindsWorker(c: Config, s: State, j: nat, wake: Option<nat>, gotNode: bool)
    requires ValidConfig(c) && Inv(c, s) && Enabled(c, s, Submit(j, wake, gotNode, true))
    requires Apply(c, s, Submit(j, wake, gotNode, true)).submitters[j] == Done(OK)
    ensures var r := Apply(c, s, Submit(j, wake, gotNode, true));
      && (r.shared.threadCount < c.maxThreads ==> r.shared.activeCount < r.shared.threadCount)
      && (r.shared.threadCount == c.maxThreads || exists i :: 0 <= i < |r.workers| && Spare(r.workers[i]))
  {
    var r := Apply(c, s, Submit(j, wake, gotNode, true));
    StepInv(c, s, Submit(j, wake, gotNode, true));
    SpareWorkers(r.workers);
  }

  // ------------------------------------------------------------ shrinking

  /** A running pool with nothing to do. */
  ghost predicate Idling(c: Config, s: State) {
    Inv(c, s) && s.phase.Open? && s.shared.queue == [] && Active !in s.workers
  }

  /** At most so many steps until every worker has timed out and left. */
  function ToLeave(ws: seq<Worker>): nat {
    4 * Count(ws, Fresh) + 3 * (Count(ws, Locking) + Count(ws, Signalled)) + 2 * Count(ws, Waiting)
    + Count(ws, TimedOut)
  }

  /** The next step of a worker on its way out. */
  function Onwards(w: Worker, i: nat): Action {
    if w.Fresh? then TestRunning(i) else if w.Waiting? then Expire(i) else Enter(i)
  }

  /** What that step makes of the worker. */
  function Next(w: Worker): Worker {
    if w.Fresh? then Locking else if w.Waiting? then TimedOut else if w.TimedOut? then Exited else Waiting
  }

  lemma Nearer(ws: seq<Worker>, i: nat)
    requires i < |ws| && Spare(ws[i])
    ensures ToLeave(ws[i := Next(ws[i])]) < ToLeave(ws)
  {
    CountSet(ws, i, Next(ws[i]));
  }

  lemma IdleMove(c: Config, s: State, i: nat)
    requires ValidConfig(c) && Idling(c, s) && s.shared.threadCount > c.minThreads
    requires i < |s.workers| && Spare(s.workers[i])
    ensures Enabled(c, s, Onwards(s.workers[i], i))
    ensures var r := Apply(c, s, Onwards(s.workers[i], i));
      r.workers == s.workers[i := Next(s.workers[i])] && r.phase.Open? && r.shared.queue == []
  {
    if Onwards(s.workers[i], i).Enter? {
      EnterOutcome(c, s, i);
    }
  }

  lemma IdleStep(c: Config, s: State, i: nat)
    requires ValidConfig(c) && Idling(c, s) && s.shared.threadCount > c.minThreads
    requires i < |s.workers| && Spare(s.workers[i])
    ensures Enabled(c, s, Onwards(s.workers[i], i))
    ensures var r := Apply(c, s, Onwards(s.workers[i], i)); Idling(c, r) && ToLeave(r.workers) < ToLeave(s.workers)
  {
    IdleMove(c, s, i);
    StepInv(c, s, Onwards(s.workers[i], i));
    Nearer(s.workers, i);
    NoneActive(s.workers, i, Next(s.workers[i]));
  }

  lemma NoneActive(ws: seq<Worker>, i: nat, w: Worker)
    requires i < |ws| && Active !in ws && !w.Active?
    ensures Active !in ws[i := w]
  {
    assert forall v :: v in ws[i := w] ==> v in ws || v == w;
  }

  /** Left alone, the idle workers of a pool time out one after the other until minThreads are left. */
  lemma {:induction false} Shrinks(c: Config, s: State) returns (run: seq<Action>)
    requires ValidConfig(c) && Idling(c, s)
    ensures ValidRun(c, s, run) && (forall a :: a in run ==> OfWorker(a))
    ensures Execute(c, s, run).shared.threadCount == c.minThreads
    decreases ToLeave(s.workers)
  {
    if s.shared.threadCount == c.minThreads {
      run := [];
    } else {
      FindWorker(s.workers, Active);
      SpareWorkers(s.workers);
      var i: nat :| i < |s.workers| && Spare(s.workers[i]);
      var a := Onwards(s.workers[i], i);
      IdleStep(c, s, i);
      run := Shrinks(c, Apply(c, s, a));
      Cons(c, s, a, Apply(c, s, a), run);
      run := [a] + run;
    }
  }

  lemma {:induction false} StaysOpen(c: Config, s: State, run: seq<Action>)
    requires ValidConfig(c) && Inv(c, s) && s.phase.Open? && ValidRun(c, s, run) && forall a :: a in run ==> OfWorker(a)
    ensures Inv(c, Execute(c, s, run)) && Execute(c, s, run).phase.Open?
    decreases |run|
  {
    if run != [] {
      assert run[0] in run;
      StepInv(c, s, run[0]);
      StaysOpen(c, Apply(c, s, run[0]), run[1..]);
    }
  }

  ghost predicate WorkersReach(c: Config, s: State, run: seq<Action>, n: int) {
    ValidRun(c, s, run) && (forall a :: a in run ==> OfWorker(a)) && Execute(c, s, run).shared.threadCount == n
  }

  /** From every reachable open state without work the workers can bring the pool down to minThreads, and
      they never bring it below. */
  lemma IdleWorkersLeave(c: Config, run: seq<Action>)
    requires ValidConfig(c) && ValidRun(c, Init(c), run)
    requires var s := Reached(c, run); s.phase.Open? && s.shared.queue == [] && Active !in s.workers
    ensures exists more :: WorkersReach(c, Reached(c, run), more, c.minThreads)
    ensures forall more, n :: WorkersReach(c, Reached(c, run), more, n) ==> n >= c.minThreads
  {
    InitInv(c);
    RunInv(c, Init(c), run);
    var s := Reached(c, run);
    var more := Shrinks(c, s);
    assert WorkersReach(c, s, more, c.minThreads);
    forall more, n | WorkersReach(c, s, more, n)
      ensures n >= c.minThreads
    {
      StaysOpen(c, s, more);
    }
  }
}
