/**
  Wake-ups of submitters that wait on not_full: when each free slot has someone coming who signals
  it or fills it, and exactly which step breaks this.
 */
module PoolWakeUps {
  import opened InfraTypes
  import opened PoolSections
  import opened PoolProtocol
  import opened PoolLaws

  /** While a submitter sleeps, every free slot has an active worker, which will signal it, or a
      woken submitter, which comes to fill it. */
  predicate Covered(c: Config, s: State) {
    s.shared.running && CountJ(s.submitters, Blocked) > 0 ==>
      c.queueSize - |s.shared.queue| <= s.shared.activeCount + CountJ(s.submitters, Woken)
  }

  /** A woken submitter is refused memory while another one sleeps and no slot has a second
      claimant: the wake-up is lost with it. */
  predicate Strands(c: Config, s: State, a: Action) {
    && a.Submit? && a.j < |s.submitters| && s.submitters[a.j].Woken? && !a.gotNode
    && s.shared.running && |s.shared.queue| < c.queueSize
    && CountJ(s.submitters, Blocked) > 0
    && c.queueSize - |s.shared.queue| == s.shared.activeCount + CountJ(s.submitters, Woken)
  }

  /** The step that the code cannot afford, seen from any covered state. */
  lemma CoveredStep(c: Config, s: State, a: Action)
    requires ValidConfig(c) && Inv(c, s) && Enabled(c, s, a) && Covered(c, s)
    ensures Covered(c, Apply(c, s, a)) <==> !Strands(c, s, a)
  {
    match a
    case Finish(i, wake) => CoveredFinish(c, s, i, wake);
    case Call(t) => CoveredCall(c, s, t);
    case Submit(j, wake, gotNode, gotThread) => CoveredSubmit(c, s, j, wake, gotNode, gotThread);
    case WakeSubmitter(j) => CountSetJ(s.submitters, j, Woken);
    case Enter(i) => CoveredEnter(c, s, i);
    case _ =>
  }

  lemma CoveredFinish(c: Config, s: State, i: nat, wake: Option<nat>)
    requires ValidConfig(c) && Inv(c, s) && Covered(c, s) && Enabled(c, s, Finish(i, wake))
    ensures Covered(c, Apply(c, s, Finish(i, wake)))
  {
    CountSet(s.workers, i, Fresh);
    if |s.shared.queue| < c.queueSize {
      NotifyCounts(s.submitters, wake);
    }
  }

  lemma CoveredCall(c: Config, s: State, t: Task)
    requires Covered(c, s) && Enabled(c, s, Call(t))
    ensures Covered(c, Apply(c, s, Call(t)))
  {
    assert multiset(s.submitters + [Calling]) == multiset(s.submitters) + multiset{Calling};
  }

  lemma CoveredEnter(c: Config, s: State, i: nat)
    requires Covered(c, s) && Enabled(c, s, Enter(i))
    ensures Covered(c, Apply(c, s, Enter(i)))
  {
  }

  lemma CoveredSubmit(c: Config, s: State, j: nat, wake: Option<nat>, gotNode: bool, gotThread: bool)
    requires ValidConfig(c) && Inv(c, s) && Covered(c, s) && Enabled(c, s, Submit(j, wake, gotNode, gotThread))
    ensures Covered(c, Apply(c, s, Submit(j, wake, gotNode, gotThread)))
       <==> !Strands(c, s, Submit(j, wake, gotNode, gotThread))
  {
    match Turn(c, s, j, gotNode, gotThread).1
    case Block => CountSetJ(s.submitters, j, Blocked);
    case Return(status, _) => CountSetJ(s.submitters, j, Done(status));
  }

  // ------------------------------------------------------------ runs

  predicate AlwaysCovered(c: Config, s: State, run: seq<Action>)
    requires ValidRun(c, s, run)
    decreases |run|
  {
    Covered(c, s) && (run != [] ==> AlwaysCovered(c, Apply(c, s, run[0]), run[1..]))
  }

  predicate NeverStrands(c: Config, s: State, run: seq<Action>)
    requires ValidRun(c, s, run)
    decreases |run|
  {
    run != [] ==> !Strands(c, s, run[0]) && NeverStrands(c, Apply(c, s, run[0]), run[1..])
  }

  lemma {:induction false} CoveredRun(c: Config, s: State, run: seq<Action>)
    requires ValidConfig(c) && Inv(c, s) && Covered(c, s) && ValidRun(c, s, run)
    ensures AlwaysCovered(c, s, run) <==> NeverStrands(c, s, run)
    decreases |run|
  {
    if run != [] {
      StepInv(c, s, run[0]);
      CoveredStep(c, s, run[0]);
      if !Strands(c, s, run[0]) {
        CoveredRun(c, Apply(c, s, run[0]), run[1..]);
      }
    }
  }

  lemma {:induction false} CoveredAtEnd(c: Config, s: State, run: seq<Action>)
    requires ValidRun(c, s, run) && AlwaysCovered(c, s, run)
    ensures Covered(c, Execute(c, s, run))
    decreases |run|
  {
    if run != [] {
      CoveredAtEnd(c, Apply(c, s, run[0]), run[1..]);
    }
  }

  /** Free slots are covered all along a run from the start if and only if no step of it strands. */
  lemma WakeUpsHoldIff(c: Config, run: seq<Action>)
    requires ValidConfig(c) && ValidRun(c, Init(c), run)
    ensures AlwaysCovered(c, Init(c), run) <==> NeverStrands(c, Init(c), run)
    ensures NeverStrands(c, Init(c), run) ==> Covered(c, Reached(c, run))
  {
    InitInv(c);
    CoveredRun(c, Init(c), run);
    if NeverStrands(c, Init(c), run) {
      CoveredAtEnd(c, Init(c), run);
    }
  }

  /** With memory for every task no run strands. */
  lemma {:induction false} MemoryNeverStrands(c: Config, s: State, run: seq<Action>)
    requires ValidRun(c, s, run) && forall a :: a in run && a.Submit? ==> a.gotNode
    ensures NeverStrands(c, s, run)
    decreases |run|
  {
    if run != [] {
      assert run[0] in run;
      MemoryNeverStrands(c, Apply(c, s, run[0]), run[1..]);
    }
  }

  /** A submitter is then not left asleep beside a free slot: a worker is still to signal, or a
      submitter is on its way. */
  lemma NoLostWakeUp(c: Config, run: seq<Action>)
    requires ValidConfig(c) && ValidRun(c, Init(c), run) && NeverStrands(c, Init(c), run)
    requires var s := Reached(c, run); s.shared.running && Blocked in s.submitters && |s.shared.queue| < c.queueSize
    ensures var s := Reached(c, run); Active in s.workers || Woken in s.submitters
  {
    WakeUpsHoldIff(c, run);
    InitInv(c);
    RunInv(c, Init(c), run);
    var s := Reached(c, run);
    assert CountJ(s.submitters, Blocked) > 0;
    assert s.shared.activeCount + CountJ(s.submitters, Woken) > 0;
  }

  /** Together: whenever a submitter sleeps, some thread can go on without a timeout. */
  lemma BlockedSubmitterHasHope(c: Config, run: seq<Action>)
    requires ValidConfig(c) && ValidRun(c, Init(c), run) && NeverStrands(c, Init(c), run)
    requires var s := Reached(c, run); s.shared.running && Blocked in s.submitters
    ensures var s := Reached(c, run);
      Woken in s.submitters || exists i :: 0 <= i < |s.workers| && OnItsWay(s.workers[i])
  {
    var s := Reached(c, run);
    if |s.shared.queue| < c.queueSize {
      NoLostWakeUp(c, run);
      if Active in s.workers {
        var i :| 0 <= i < |s.workers| && s.workers[i] == Active;
        assert OnItsWay(s.workers[i]);
      }
    } else {
      NoStrandedTask(c, run);
    }
  }

  // ------------------------------------------------------------ after a stranding step

  /** Nothing queued and nobody active: no worker will signal a submitter before another task is
      accepted.  A sleeping submitter can only wait for a submitter that has yet to take the mutex, for a
      new call, or for a spurious wake-up. */
  predicate Deserted(s: State) {
    s.shared.running && s.shared.queue == [] && Active !in s.workers
  }

  lemma DesertedStep(c: Config, s: State, a: Action)
    requires Deserted(s) && Enabled(c, s, a) && OfWorker(a)
    ensures Deserted(Apply(c, s, a)) && Apply(c, s, a).submitters == s.submitters
  {
    var r := Apply(c, s, a);
    assert forall w :: w in r.workers ==> w in s.workers || w == r.workers[a.i];
  }

  /** Whatever the workers do then, with all their timeouts and spurious wake-ups, the sleeping
      submitters sleep on. */
  lemma {:induction false} DesertedSleeps(c: Config, s: State, run: seq<Action>)
    requires Deserted(s) && ValidRun(c, s, run) && forall a :: a in run ==> OfWorker(a)
    ensures Execute(c, s, run).submitters == s.submitters
    decreases |run|
  {
    if run != [] {
      assert run[0] in run;
      DesertedStep(c, s, run[0]);
      DesertedSleeps(c, Apply(c, s, run[0]), run[1..]);
    }
  }

  // ------------------------------------------------------------ which steps wake a submitter

  /** A sleeping submitter is woken by the end of a task that chooses it, by the broadcast of destroy, or
      for no reason, and by nothing else. */
  lemma WokenIff(c: Config, s: State, a: Action, j: nat)
    requires Enabled(c, s, a) && j < |s.submitters| && s.submitters[j].Blocked?
    ensures j < |Apply(c, s, a).submitters|
    ensures Apply(c, s, a).submitters[j] != Blocked
       <==> a.Broadcast? || a == WakeSubmitter(j) || (a.Finish? && a.wake == Some(j) && |s.shared.queue| < c.queueSize)
  {
  }

  /** From any state with sleeping submitters the end of a task wakes one if and only if the queue has a
      free slot at that moment, and then only one. */
  lemma FinishWakesIff(c: Config, s: State, i: nat, wake: Option<nat>)
    requires Enabled(c, s, Finish(i, wake)) && CountJ(s.submitters, Blocked) > 0
    ensures CountJ(Apply(c, s, Finish(i, wake)).submitters, Blocked)
         == CountJ(s.submitters, Blocked) - if |s.shared.queue| < c.queueSize then 1 else 0
    ensures |s.shared.queue| >= c.queueSize ==> Apply(c, s, Finish(i, wake)).submitters == s.submitters
  {
    if |s.shared.queue| < c.queueSize {
      NotifyCounts(s.submitters, wake);
    }
  }

  /** The tasks 1, 2, 3 of submitters 0, 1, 2; the first is accepted once submitter 0 is done. */
  function Snapshot(active: int, queue: seq<Task>, w: Worker, js: seq<Submitter>, started: seq<Task>): State
    requires |js| <= 3
  {
    var accepted := if js != [] && js[0] == Done(OK) then [1] else [];
    State(Shared(1, active, queue, true, false), [w], js, [1, 2, 3][..|js|], Open, accepted, started)
  }

  /** The same while the first task is queued. */
  function Queued(w: Worker, js: seq<Submitter>): State
    requires |js| <= 3
  {
    Snapshot(0, [1], w, js, [])
  }

  /** Two submitters wait behind a full queue, and the worker serves the one task. */
  lemma StrandedTail() returns (run: seq<Action>)
    ensures ValidRun(TINY, Queued(Fresh, [Done(OK), Blocked, Blocked]), run)
    ensures Execute(TINY, Queued(Fresh, [Done(OK), Blocked, Blocked]), run)
         == Snapshot(0, [], Waiting, [Done(OK), Done(NO_MEMORY), Blocked], [1])
  {
    var full, woken := [Done(OK), Blocked, Blocked], [Done(OK), Woken, Blocked];
    var gone := [Done(OK), Done(NO_MEMORY), Blocked];
    var end := Snapshot(0, [], Waiting, gone, [1]);
    var locking, idle := Snapshot(0, [], Locking, gone, [1]), Snapshot(0, [], Fresh, gone, [1]);
    run := [];
    Cons(TINY, locking, Enter(0), end, run);
    run := [Enter(0)] + run;
    Cons(TINY, idle, TestRunning(0), locking, run);
    run := [TestRunning(0)] + run;
    Cons(TINY, Snapshot(0, [], Fresh, woken, [1]), Submit(1, None, false, false), idle, run);
    run := [Submit(1, None, false, false)] + run;
    Cons(TINY, Snapshot(1, [], Active, full, [1]), Finish(0, Some(1)), Snapshot(0, [], Fresh, woken, [1]), run);
    run := [Finish(0, Some(1))] + run;
    Cons(TINY, Queued(Locking, full), Enter(0), Snapshot(1, [], Active, full, [1]), run);
    run := [Enter(0)] + run;
    Cons(TINY, Queued(Fresh, full), TestRunning(0), Queued(Locking, full), run);
    run := [TestRunning(0)] + run;
  }

  /** The second and third submitter find the queue full. */
  lemma StrandedMiddle() returns (run: seq<Action>)
    ensures ValidRun(TINY, Queued(Fresh, [Done(OK)]), run)
    ensures Execute(TINY, Queued(Fresh, [Done(OK)]), run)
         == Snapshot(0, [], Waiting, [Done(OK), Done(NO_MEMORY), Blocked], [1])
  {
    run := StrandedTail();
    var one, two := Queued(Fresh, [Done(OK)]), Queued(Fresh, [Done(OK), Calling]);
    var three, four := Queued(Fresh, [Done(OK), Blocked]), Queued(Fresh, [Done(OK), Blocked, Calling]);
    Cons(TINY, four, Submit(2, None, true, false), Queued(Fresh, [Done(OK), Blocked, Blocked]), run);
    run := [Submit(2, None, true, false)] + run;
    Cons(TINY, three, Call(3), four, run);
    run := [Call(3)] + run;
    Cons(TINY, two, Submit(1, None, true, false), three, run);
    run := [Submit(1, None, true, false)] + run;
    Cons(TINY, one, Call(2), two, run);
    run := [Call(2)] + run;
  }

  /** Where one refused task leaves two submitters that waited for the same slot. */
  const STRANDED := Snapshot(0, [], Waiting, [Done(OK), Done(NO_MEMORY), Blocked], [1])

  /** A run from the start gets there: the woken submitter is refused memory, the other one sleeps
      beside an empty queue, and no step of the worker can wake it. */
  lemma RefusedMemoryStrandsSubmitter() returns (run: seq<Action>)
    ensures ValidConfig(TINY) && ValidRun(TINY, Init(TINY), run) && Reached(TINY, run) == STRANDED
    ensures !NeverStrands(TINY, Init(TINY), run) && !Covered(TINY, STRANDED) && Deserted(STRANDED)
  {
    run := StrandedMiddle();
    var calling := Snapshot(0, [], Fresh, [Calling], []);
    Cons(TINY, calling, Submit(0, None, true, false), Queued(Fresh, [Done(OK)]), run);
    run := [Submit(0, None, true, false)] + run;
    Cons(TINY, Init(TINY), Call(1), calling, run);
    run := [Call(1)] + run;
    assert STRANDED.submitters[2] == Blocked;
    assert CountJ(STRANDED.submitters, Blocked) > 0;
    assert Woken !in STRANDED.submitters;
    assert CountJ(STRANDED.submitters, Woken) == 0;
    WakeUpsHoldIff(TINY, run);
  }

  /** After STRANDED: what has become of submitters 2, 3 and 4, which hand in the tasks 3, 9 and 10. */
  function Later(active: int, queue: seq<Task>, w: Worker, js: seq<Submitter>, started: seq<Task>): State
    requires |js| <= 3
  {
    State(Shared(1, active, queue, true, false), [w], [Done(OK), Done(NO_MEMORY)] + js, [1, 2, 3, 9, 10][..2 + |js|],
          Open, started + queue, started)
  }

  /** The next accepted submission: its task is handed out. */
  lemma NextSubmissionServed(rest: seq<Action>, end: State)
    requires ValidRun(TINY, Later(1, [], Active, [Blocked, Done(OK)], [1, 9]), rest)
    requires Execute(TINY, Later(1, [], Active, [Blocked, Done(OK)], [1, 9]), rest) == end
    ensures var run := [Call(9), Submit(3, Some(0), true, false), Enter(0)] + rest;
      ValidRun(TINY, STRANDED, run) && Execute(TINY, STRANDED, run) == end
  {
    var calling := Later(0, [], Waiting, [Blocked, Calling], [1]);
    var queued := Later(0, [9], Signalled, [Blocked, Done(OK)], [1]);
    var submit, enter := Submit(3, Some(0), true, false), Enter(0);
    Cons(TINY, queued, enter, Later(1, [], Active, [Blocked, Done(OK)], [1, 9]), rest);
    Cons(TINY, calling, submit, queued, [enter] + rest);
    Cons(TINY, STRANDED, Call(9), calling, [submit] + ([enter] + rest));
    assert [Call(9)] + ([submit] + ([enter] + rest)) == [Call(9), submit, enter] + rest;
  }

  /** One way on from there: the task ends with the queue empty, and the sleeper is woken. */
  lemma NextSubmissionMayWake() returns (run: seq<Action>)
    ensures ValidRun(TINY, STRANDED, run)
    ensures Execute(TINY, STRANDED, run) == Later(0, [], Fresh, [Woken, Done(OK)], [1, 9])
  {
    var finish := Finish(0, Some(2));
    var end := Later(0, [], Fresh, [Woken, Done(OK)], [1, 9]);
    Cons(TINY, Later(1, [], Active, [Blocked, Done(OK)], [1, 9]), finish, end, []);
    NextSubmissionServed([finish] + [], end);
    run := [Call(9), Submit(3, Some(0), true, false), Enter(0)] + ([finish] + []);
  }

  /** Another way: one more task fills the queue first, so the end of the served one signals nobody. */
  lemma NextSubmissionMayNotWake() returns (run: seq<Action>)
    ensures ValidRun(TINY, STRANDED, run)
    ensures Execute(TINY, STRANDED, run) == Later(0, [10], Fresh, [Blocked, Done(OK), Done(OK)], [1, 9])
  {
    var submit, finish := Submit(4, None, true, false), Finish(0, None);
    var full, end := Later(1, [10], Active, [Blocked, Done(OK), Done(OK)], [1, 9]),
                     Later(0, [10], Fresh, [Blocked, Done(OK), Done(OK)], [1, 9]);
    var more := Later(1, [], Active, [Blocked, Done(OK), Calling], [1, 9]);
    run := [];
    Cons(TINY, full, finish, end, run);
    run := [finish] + run;
    Cons(TINY, more, submit, full, run);
    run := [submit] + run;
    Cons(TINY, Later(1, [], Active, [Blocked, Done(OK)], [1, 9]), Call(10), more, run);
    run := [Call(10)] + run;
    NextSubmissionServed(run, end);
    run := [Call(9), Submit(3, Some(0), true, false), Enter(0)] + run;
  }
}
