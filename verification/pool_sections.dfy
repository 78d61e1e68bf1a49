/**
  The critical sections of the thread pool (infra_sync.c) as functions of the fields that
  the mutex guards.  The protocol runs them as atomic steps; PoolMemory shows that the code
  on the linked task queue computes them.
 */
module PoolSections {
  import opened InfraTypes

  /** A function and its argument; the pool never looks inside. */
  type Task = int

  datatype Config = Config(minThreads: nat, maxThreads: nat, queueSize: nat)

  /** What infra_thread_pool_create accepts. */
  predicate ValidConfig(c: Config) {
    0 < c.minThreads <= c.maxThreads && 0 < c.queueSize
  }

  datatype Shared = Shared(threadCount: int, activeCount: int, queue: seq<Task>, running: bool, shuttingDown: bool)

  /** What a worker does when it lets go of the mutex: wait, return, or run a task. */
  datatype WorkerMove = Wait | Exit | Start(task: Task)

  /** From the head of the inner loop, or from a timed-out wait, to the next release of the mutex. */
  function WorkerTurn(c: Config, s: Shared, timedOut: bool): (Shared, WorkerMove) {
    if timedOut && s.threadCount > c.minThreads then
      (s.(threadCount := s.threadCount - 1), Exit)
    else if s.queue == [] then
      if s.shuttingDown then (s.(threadCount := s.threadCount - 1), Exit) else (s, Wait)
    else
      (s.(queue := s.queue[1..], activeCount := s.activeCount + 1), Start(s.queue[0]))
  }

  /** After a task: the new fields, and whether not_full is signalled. */
  function FinishTurn(c: Config, s: Shared): (Shared, bool) {
    (s.(activeCount := s.activeCount - 1), |s.queue| < c.queueSize)
  }

  datatype SubmitMove = Block | Return(status: Status, spawned: bool)

  /** From the test of the full queue to the next release of the mutex.  The two outcomes of the
      platform are parameters: whether the task node is allocated and whether a thread starts. */
  function SubmitTurn(c: Config, s: Shared, t: Task, gotNode: bool, gotThread: bool): (Shared, SubmitMove) {
    if s.shuttingDown then (s, Return(NOT_READY, false))
    else if |s.queue| >= c.queueSize then (s, Block)
    else if !gotNode then (s, Return(NO_MEMORY, false))
    else
      var grow := s.threadCount < c.maxThreads && s.activeCount == s.threadCount && gotThread;
      (s.(queue := s.queue + [t], threadCount := s.threadCount + if grow then 1 else 0), Return(OK, grow))
  }

  function DestroyTurn(s: Shared): Shared { s.(shuttingDown := true, running := false) }
}
