/** What every run of the thread pool guarantees. */
module PoolLaws {
  import opened InfraTypes
  import opened PoolSections
  import opened PoolProtocol

  /** A worker that will reach the mutex without being woken. */
  predicate OnItsWay(w: Worker) {
    w.Fresh? || w.Locking? || w.Signalled? || w.TimedOut? || w.Active?
  }

  lemma FindWorker(ws: seq<Worker>, w: Worker)
    ensures Count(ws, w) > 0 <==> exists i :: 0 <= i < |ws| && ws[i] == w
  {
    assert Count(ws, w) > 0 <==> w in ws;
  }

  lemma FindOnItsWay(ws: seq<Worker>)
    ensures Live(ws) - Count(ws, Waiting) > 0 <==> exists i :: 0 <= i < |ws| && OnItsWay(ws[i])
  {
    FindWorker(ws, Fresh);
    FindWorker(ws, Locking);
    FindWorker(ws, Signalled);
    FindWorker(ws, TimedOut);
    FindWorker(ws, Active);
    if exists i :: 0 <= i < |ws| && OnItsWay(ws[i]) {
      var i :| 0 <= i < |ws| && OnItsWay(ws[i]);
      FindWorker(ws, ws[i]);
    }
  }

  function Reached(c: Config, run: seq<Action>): State
    requires ValidRun(c, Init(c), run)
  {
    Execute(c, Init(c), run)
  }

  lemma Cons(c: Config, s: State, a: Action, t: State, rest: seq<Action>)
    requires Enabled(c, s, a) && Apply(c, s, a) == t && ValidRun(c, t, rest)
    ensures ValidRun(c, s, [a] + rest) && Execute(c, s, [a] + rest) == Execute(c, t, rest)
  {
    assert ([a] + rest)[1..] == rest;
  }

  /** Exactly once and in order: what was accepted is what was started, then what is queued. */
  lemma Fifo(c: Config, run: seq<Action>)
    requires ValidConfig(c) && ValidRun(c, Init(c), run)
    ensures var s := Reached(c, run);
      && s.started <= s.submitted
      && (!s.phase.Freed? ==> s.submitted == s.started + s.shared.queue && |s.shared.queue| <= c.queueSize)
  {
    InitInv(c);
    RunInv(c, Init(c), run);
  }

  lemma Counters(c: Config, run: seq<Action>)
    requires ValidConfig(c) && ValidRun(c, Init(c), run)
    ensures var s := Reached(c, run);
      && 0 <= s.shared.activeCount == Count(s.workers, Active) <= s.shared.threadCount <= c.maxThreads
      && s.shared.threadCount == Live(s.workers) + Count(s.workers, LeftLoop)
      && (s.shared.running ==> c.minThreads <= s.shared.threadCount == Live(s.workers))
  {
    InitInv(c);
    RunInv(c, Init(c), run);
  }

  /** While the pool runs, a queued task never faces only sleeping workers. */
  lemma NoStrandedTask(c: Config, run: seq<Action>)
    requires ValidConfig(c) && ValidRun(c, Init(c), run)
    requires var s := Reached(c, run); s.shared.running && s.shared.queue != []
    ensures var ws := Reached(c, run).workers; exists i :: 0 <= i < |ws| && OnItsWay(ws[i])
  {
    InitInv(c);
    RunInv(c, Init(c), run);
    FindOnItsWay(Reached(c, run).workers);
  }

  /** While the pool runs and a worker sleeps, every queued task has a woken worker coming for it. */
  lemma QueuedTasksAwaited(c: Config, run: seq<Action>)
    requires ValidConfig(c) && ValidRun(c, Init(c), run)
    requires Reached(c, run).shared.running && Waiting in Reached(c, run).workers
    ensures |Reached(c, run).shared.queue| <= Count(Reached(c, run).workers, Signalled)
  {
    InitInv(c);
    RunInv(c, Init(c), run);
  }

  /** The pool is freed only when every thread has returned and counted itself out. */
  lemma FreedIsUnused(c: Config, run: seq<Action>)
    requires ValidConfig(c) && ValidRun(c, Init(c), run)
    requires Reached(c, run).phase.Freed?
    ensures var ws := Reached(c, run).workers; forall i :: 0 <= i < |ws| ==> ws[i] == Exited
  {
    InitInv(c);
    RunInv(c, Init(c), run);
    var ws := Reached(c, run).workers;
    forall i | 0 <= i < |ws|
      ensures ws[i] == Exited
    {
      assert Count(ws, ws[i]) > 0 by { FindWorker(ws, ws[i]); }
    }
  }

  // ------------------------------------------------------------ when destroy returns

  /** Someone will leave by the test of `running`, or has: thread_count stays above zero. */
  predicate Doomed(s: State) {
    || s.shared.queue != []
    || Count(s.workers, Active) + Count(s.workers, Fresh) + Count(s.workers, LeftLoop) > 0
  }

  lemma DoomedCounts(c: Config, s: State)
    requires ValidConfig(c) && Inv(c, s) && Doomed(s)
    ensures s.shared.threadCount > 0 && !s.phase.Freed?
  {
  }

  lemma DoomedMove(s: State, i: nat, w: Worker)
    requires Doomed(s) && i < |s.workers|
    requires w == LeftLoop || s.workers[i].Waiting?
    ensures Doomed(s.(workers := s.workers[i := w]))
  {
    CountSet(s.workers, i, w);
  }

  lemma DoomedEnter(c: Config, s: State, i: nat)
    requires ValidConfig(c) && Inv(c, s) && !s.shared.running && Doomed(s) && Enabled(c, s, Enter(i))
    ensures Doomed(Apply(c, s, Enter(i)))
  {
    match WorkerTurn(c, s.shared, s.workers[i].TimedOut?).1
    case Start(_) => DoomedStart(s, i);
    case Exit => DoomedExit(s, i);
    case _ =>
  }

  lemma DoomedStart(s: State, i: nat)
    requires i < |s.workers|
    ensures Count(s.workers[i := Active], Active) > 0
  {
    CountSet(s.workers[i := Active], i, Active);
  }

  lemma DoomedExit(s: State, i: nat)
    requires i < |s.workers| && !s.workers[i].Active? && !s.workers[i].Fresh? && !s.workers[i].LeftLoop?
    ensures var ws := s.workers[i := Exited];
      && Count(ws, Active) == Count(s.workers, Active) && Count(ws, Fresh) == Count(s.workers, Fresh)
      && Count(ws, LeftLoop) == Count(s.workers, LeftLoop)
  {
    CountSet(s.workers, i, Exited);
  }

  lemma DoomedFinish(c: Config, s: State, i: nat, wake: Option<nat>)
    requires ValidConfig(c) && Inv(c, s) && !s.shared.running && Enabled(c, s, Finish(i, wake))
    ensures Doomed(Apply(c, s, Finish(i, wake)))
  {
    CountSet(s.workers, i, Fresh);
  }

  lemma DoomedBroadcast(c: Config, s: State)
    requires Doomed(s) && Enabled(c, s, Broadcast)
    ensures Doomed(Apply(c, s, Broadcast))
  {
    WakeAllCounts(s.workers);
  }

  lemma DoomedStep(c: Config, s: State, a: Action)
    requires ValidConfig(c) && Inv(c, s) && Enabled(c, s, a) && !s.shared.running && Doomed(s)
    ensures Doomed(Apply(c, s, a))
  {
    DoomedCounts(c, s);
    match a
    case TestRunning(i) => DoomedMove(s, i, LeftLoop);
    case Enter(i) => DoomedEnter(c, s, i);
    case Expire(i) => DoomedMove(s, i, TimedOut);
    case WakeWorker(i) => DoomedMove(s, i, Signalled);
    case Finish(i, wake) => DoomedFinish(c, s, i, wake);
    case Broadcast => DoomedBroadcast(c, s);
    case _ =>
  }

  lemma ClosedStays(c: Config, s: State, a: Action)
    requires ValidConfig(c) && Inv(c, s) && Enabled(c, s, a) && !s.shared.running
    ensures !Apply(c, s, a).shared.running
  {
  }

  lemma {:induction false} DoomedForever(c: Config, s: State, run: seq<Action>)
    requires ValidConfig(c) && Inv(c, s) && !s.shared.running && Doomed(s) && ValidRun(c, s, run)
    ensures !Execute(c, s, run).phase.Freed?
    decreases |run|
  {
    if run == [] {
      DoomedCounts(c, s);
    } else {
      StepInv(c, s, run[0]);
      DoomedStep(c, s, run[0]);
      ClosedStays(c, s, run[0]);
      DoomedForever(c, Apply(c, s, run[0]), run[1..]);
    }
  }

  /** What is left for the workers of a pool that is not doomed: one step to wake, one to exit. */
  function Remaining(s: State): nat { 2 * Count(s.workers, Waiting) + Live(s.workers) }

  /** The same with the steps of the thread in destroy: the broadcast and the end. */
  function Left(s: State): nat {
    Remaining(s) + if s.phase.Freed? then 0 else if s.phase.Draining? then 1 else 2
  }

  /** A step of a worker, as opposed to one of a submitter or of the thread in destroy. */
  predicate OfWorker(a: Action) {
    a.TestRunning? || a.Enter? || a.Expire? || a.WakeWorker? || a.Finish?
  }

  predicate OfSubmitter(a: Action) { a.Call? || a.Submit? || a.WakeSubmitter? }

  /** Destroy has raised its flags and nothing keeps it from returning. */
  ghost predicate Leaving(c: Config, s: State) { Inv(c, s) && !s.shared.running && !Doomed(s) }

  lemma UndoomedEnter(c: Config, s: State, i: nat)
    requires ValidConfig(c) && Leaving(c, s) && Enabled(c, s, Enter(i))
    ensures !Doomed(Apply(c, s, Enter(i))) && Left(Apply(c, s, Enter(i))) < Left(s)
  {
    CountSet(s.workers, i, Exited);
  }

  lemma UndoomedWake(c: Config, s: State, i: nat, w: Worker)
    requires !Doomed(s) && i < |s.workers| && s.workers[i] == Waiting && (w == TimedOut || w == Signalled)
    ensures var r := s.(workers := s.workers[i := w]); !Doomed(r) && Left(r) < Left(s)
  {
    CountSet(s.workers, i, w);
  }

  /** No task is running or about to be asked for, and nobody calls destroy again. */
  lemma UndoomedEnabled(c: Config, s: State, a: Action)
    requires Leaving(c, s) && Enabled(c, s, a)
    ensures !a.TestRunning? && !a.Finish? && !a.Destroy?
  {
    FindWorker(s.workers, Fresh);
    FindWorker(s.workers, Active);
  }

  lemma UndoomedBroadcast(c: Config, s: State)
    requires Leaving(c, s) && Enabled(c, s, Broadcast)
    ensures !Doomed(Apply(c, s, Broadcast)) && Left(Apply(c, s, Broadcast)) < Left(s)
  {
    WakeAllCounts(s.workers);
  }

  lemma SubmittersKeepOut(c: Config, s: State, a: Action)
    requires Inv(c, s) && !s.shared.running && Enabled(c, s, a) && OfSubmitter(a)
    ensures var r := Apply(c, s, a); r.shared == s.shared && r.workers == s.workers && r.phase == s.phase
  {
  }

  lemma UndoomedOther(c: Config, s: State, a: Action)
    requires Leaving(c, s) && Enabled(c, s, a) && (OfSubmitter(a) || a.Reap?)
    ensures !Doomed(Apply(c, s, a)) && Left(Apply(c, s, a)) == Left(s) - One(a.Reap?)
  {
    if OfSubmitter(a) {
      SubmittersKeepOut(c, s, a);
    }
  }

  /** Without doom every step of a worker or of the thread in destroy brings the pool nearer to its
      end, and no step of a submitter takes it away from there. */
  lemma UndoomedStep(c: Config, s: State, a: Action)
    requires ValidConfig(c) && Leaving(c, s) && Enabled(c, s, a)
    ensures Leaving(c, Apply(c, s, a))
    ensures if OfSubmitter(a) then Left(Apply(c, s, a)) == Left(s) else Left(Apply(c, s, a)) < Left(s)
  {
    StepInv(c, s, a);
    ClosedStays(c, s, a);
    UndoomedMove(c, s, a);
  }

  lemma UndoomedMove(c: Config, s: State, a: Action)
    requires ValidConfig(c) && Leaving(c, s) && Enabled(c, s, a)
    ensures var r := Apply(c, s, a); !Doomed(r) && if OfSubmitter(a) then Left(r) == Left(s) else Left(r) < Left(s)
  {
    UndoomedEnabled(c, s, a);
    match a
    case Enter(i) => UndoomedEnter(c, s, i);
    case Expire(i) => UndoomedWake(c, s, i, TimedOut);
    case WakeWorker(i) => UndoomedWake(c, s, i, Signalled);
    case Broadcast => UndoomedBroadcast(c, s);
    case _ => UndoomedOther(c, s, a);
  }

  function StepsTowardsEnd(run: seq<Action>): nat {
    if run == [] then 0 else StepsTowardsEnd(run[1..]) + if OfSubmitter(run[0]) then 0 else 1
  }

  /** However the steps of workers, submitters and platform interleave, such a pool stays on its way:
      it is freed after at most Left(s) steps that are not a submitter's, and until then one is enabled. */
  lemma {:induction false} DestroyReturnsAnyway(c: Config, s: State, run: seq<Action>)
    requires ValidConfig(c) && Leaving(c, s) && ValidRun(c, s, run)
    ensures var e := Execute(c, s, run);
      && Leaving(c, e) && StepsTowardsEnd(run) + Left(e) <= Left(s)
      && (!e.phase.Freed? ==> exists a: Action :: (a.Broadcast? || a.Enter? || a.Reap?) && Enabled(c, e, a))
    decreases |run|
  {
    if run == [] {
      if !s.phase.Freed? {
        var a := NextTowardsEnd(c, s);
      }
    } else {
      UndoomedStep(c, s, run[0]);
      DestroyReturnsAnyway(c, Apply(c, s, run[0]), run[1..]);
    }
  }

  lemma NextTowardsEnd(c: Config, s: State) returns (a: Action)
    requires ValidConfig(c) && Leaving(c, s) && !s.phase.Freed?
    ensures Enabled(c, s, a) && (a.Broadcast? || a.Enter? || a.Reap?)
    ensures Apply(c, s, a).submitters == if a.Broadcast? then WakeAllSubmitters(s.submitters) else s.submitters
  {
    if s.phase.Closing? {
      a := Broadcast;
    } else if Live(s.workers) == 0 {
      a := Reap;
    } else {
      FindOnItsWay(s.workers);
      var i: nat :| i < |s.workers| && OnItsWay(s.workers[i]);
      FindWorker(s.workers, s.workers[i]);
      a := Enter(i);
    }
  }

  /** Some submitter has called and not returned. */
  predicate Inside(s: State) { exists j :: 0 <= j < |s.submitters| && !s.submitters[j].Done? }

  predicate NoCalls(run: seq<Action>) { forall a :: a in run ==> !a.Call? }

  /** A pool that is not doomed can be freed at once, even while every submitter stays where it is. */
  lemma {:induction false} CanReap(c: Config, s: State) returns (run: seq<Action>)
    requires ValidConfig(c) && Leaving(c, s)
    ensures Returns(c, s, run) && NoCalls(run)
    ensures Inside(s) ==> Inside(Execute(c, s, run))
    decreases Left(s)
  {
    if s.phase.Freed? {
      run := [];
    } else {
      var a := NextTowardsEnd(c, s);
      UndoomedStep(c, s, a);
      var t := Apply(c, s, a);
      if Inside(s) {
        var j :| 0 <= j < |s.submitters| && !s.submitters[j].Done?;
        assert !t.submitters[j].Done?;
      }
      run := CanReap(c, t);
      Cons(c, s, a, t, run);
      run := [a] + run;
    }
  }

  ghost predicate Returns(c: Config, s: State, run: seq<Action>) {
    ValidRun(c, s, run) && Execute(c, s, run).phase.Freed?
  }

  /** Once destroy has raised its flags it can return if and only if nothing was queued and no
      worker was running a task, about to test `running`, or gone by that test. */
  lemma DestroyReturnsIff(c: Config, s: State)
    requires ValidConfig(c) && Inv(c, s) && s.phase.Closing?
    ensures (exists run :: Returns(c, s, run)) <==> !Doomed(s)
  {
    if Doomed(s) {
      forall run | ValidRun(c, s, run)
        ensures !Returns(c, s, run)
      {
        DoomedForever(c, s, run);
      }
    } else {
      var run := CanReap(c, s);
    }
  }

  /** A call of destroy on an open pool can return if and only if the pool is idle at the call:
      nothing queued, no task running, and no worker between a task and its next wait. */
  lemma DestroyReturnsOnlyWhenIdle(c: Config, run: seq<Action>)
    requires ValidConfig(c) && ValidRun(c, Init(c), run) && Reached(c, run).phase.Open?
    ensures var s := Reached(c, run);
      (exists more :: Returns(c, Apply(c, s, Destroy), more)) <==>
      s.shared.queue == [] && Active !in s.workers && Fresh !in s.workers
  {
    InitInv(c);
    RunInv(c, Init(c), run);
    var s := Reached(c, run);
    StepInv(c, s, Destroy);
    DestroyReturnsIff(c, Apply(c, s, Destroy));
    FindWorker(s.workers, Active);
    FindWorker(s.workers, Fresh);
  }

  /** Called as soon as create has returned, while the first workers have yet to test `running`,
      destroy never returns. */
  lemma DestroyAtOnceNeverReturns(c: Config)
    requires ValidConfig(c)
    ensures forall more :: !Returns(c, Apply(c, Init(c), Destroy), more)
  {
    InitInv(c);
    assert Init(c).workers[0] == Fresh;
    DestroyReturnsOnlyWhenIdle(c, []);
  }

  // ------------------------------------------------------------ what destroy does to submitters

  /** From the moment the flags are raised no task is accepted any more, whatever the threads do. */
  lemma {:induction false} ClosedAcceptsNothing(c: Config, s: State, run: seq<Action>)
    requires ValidConfig(c) && Inv(c, s) && !s.shared.running && ValidRun(c, s, run)
    ensures Execute(c, s, run).submitted == s.submitted && !Execute(c, s, run).shared.running
    decreases |run|
  {
    if run != [] {
      StepInv(c, s, run[0]);
      ClosedStays(c, s, run[0]);
      ClosedAcceptsNothing(c, Apply(c, s, run[0]), run[1..]);
    }
  }

  /** One worker and one slot. */
  const TINY := Config(1, 1, 1)

  function Idle(w: Worker, flag: bool, count: int, phase: Phase): State {
    State(Shared(count, 0, [], flag, !flag), [w], [Calling], [1], phase, [], [])
  }

  lemma InsideBefore(c: Config, s: State, a: Action)
    requires Enabled(c, s, a) && !a.Call? && Inside(Apply(c, s, a))
    ensures Inside(s)
  {
    var js := Apply(c, s, a).submitters;
    var j :| 0 <= j < |js| && !js[j].Done?;
    if s.submitters[j].Done? {
      assert js[j] != s.submitters[j];
    }
  }

  /** Without calls a submitter that has returned does not come back. */
  lemma {:induction false} InsideFromStart(c: Config, s: State, run: seq<Action>)
    requires ValidRun(c, s, run) && NoCalls(run) && Inside(Execute(c, s, run))
    ensures Inside(s)
    decreases |run|
  {
    if run != [] {
      assert run[0] in run;
      InsideFromStart(c, Apply(c, s, run[0]), run[1..]);
      InsideBefore(c, s, run[0]);
    }
  }

  /** The pool is freed while a submitter is inside that had called before the run. */
  ghost predicate FreedUnder(c: Config, s: State, run: seq<Action>) {
    Returns(c, s, run) && NoCalls(run) && Inside(Execute(c, s, run))
  }

  /** Nothing makes destroy wait for submitters: a call of destroy can free the pool under one that has
      called before if and only if the pool is idle at the call and there is such a one. */
  lemma FreedUnderSubmitterIff(c: Config, run: seq<Action>)
    requires ValidConfig(c) && ValidRun(c, Init(c), run) && Reached(c, run).phase.Open?
    ensures var s := Reached(c, run);
      (exists more :: FreedUnder(c, Apply(c, s, Destroy), more)) <==>
      s.shared.queue == [] && Active !in s.workers && Fresh !in s.workers && Inside(s)
  {
    DestroyReturnsOnlyWhenIdle(c, run);
    InitInv(c);
    RunInv(c, Init(c), run);
    var s := Reached(c, run);
    var t := Apply(c, s, Destroy);
    assert Inside(t) <==> Inside(s);
    StepInv(c, s, Destroy);
    if more :| FreedUnder(c, t, more) {
      InsideFromStart(c, t, more);
    }
    if (exists more :: Returns(c, t, more)) && Inside(s) {
      DestroyReturnsIff(c, t);
      var more := CanReap(c, t);
      assert FreedUnder(c, t, more);
    }
  }

  /** Under one that calls later it can be freed whenever destroy can return at all. */
  lemma FreedUnderLaterCall(c: Config, s: State, t: Task) returns (run: seq<Action>)
    requires ValidConfig(c) && Leaving(c, s) && !s.phase.Freed?
    ensures Returns(c, s, run) && Inside(Execute(c, s, run))
  {
    var r := Apply(c, s, Call(t));
    UndoomedStep(c, s, Call(t));
    assert r.submitters[|s.submitters|] == Calling;
    run := CanReap(c, r);
    Cons(c, s, Call(t), r, run);
    run := [Call(t)] + run;
  }

  /** An input of FreedUnderSubmitterIff: the pool is freed under a submitter that has yet to take the
      mutex. */
  lemma FreedUnderSubmitter() returns (run: seq<Action>)
    ensures ValidRun(TINY, Init(TINY), run)
    ensures Reached(TINY, run).phase.Freed? && Reached(TINY, run).submitters == [Calling]
  {
    run := [];
    Cons(TINY, Idle(Exited, false, 0, Draining), Reap, Idle(Exited, false, 0, Freed), run);
    run := [Reap] + run;
    Cons(TINY, Idle(Signalled, false, 1, Draining), Enter(0), Idle(Exited, false, 0, Draining), run);
    run := [Enter(0)] + run;
    Cons(TINY, Idle(Waiting, false, 1, Closing), Broadcast, Idle(Signalled, false, 1, Draining), run);
    run := [Broadcast] + run;
    Cons(TINY, Idle(Waiting, true, 1, Open), Destroy, Idle(Waiting, false, 1, Closing), run);
    run := [Destroy] + run;
    Cons(TINY, Idle(Locking, true, 1, Open), Enter(0), Idle(Waiting, true, 1, Open), run);
    run := [Enter(0)] + run;
    Cons(TINY, Idle(Fresh, true, 1, Open), TestRunning(0), Idle(Locking, true, 1, Open), run);
    run := [TestRunning(0)] + run;
    Cons(TINY, Init(TINY), Call(1), Idle(Fresh, true, 1, Open), run);
    run := [Call(1)] + run;
  }
}
