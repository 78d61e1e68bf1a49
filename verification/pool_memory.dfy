/** The thread pool structure with its linked task queue, updated in place. */
module PoolMemory {
  import opened InfraTypes
  import opened PoolSections

  class TaskNode {
    var task: Task
    var next: TaskNode?

    constructor (task: Task)
      ensures this.task == task && next == null
    {
      this.task, next := task, null;
    }
  }

  class Pool {
    const config: Config
    var threadCount: int
    var activeCount: int
    var taskHead: TaskNode?
    var taskTail: TaskNode?
    var taskCount: int
    var running: bool
    var shuttingDown: bool
    ghost var nodes: seq<TaskNode>
    ghost var queue: seq<Task>

    /** The queue is a chain from taskHead to taskTail, and taskCount is its length. */
    ghost predicate Valid()
      reads this, nodes
    {
      && taskCount == |nodes| == |queue|
      && (nodes == [] ==> taskHead == null && taskTail == null)
      && (nodes != [] ==> taskHead == nodes[0] && taskTail == nodes[|nodes| - 1] && taskTail.next == null)
      && (forall i :: 0 <= i < |nodes| ==> nodes[i].task == queue[i])
      && (forall i, j :: 0 <= i < j < |nodes| ==> nodes[i] != nodes[j])
      && forall i {:trigger nodes[i].next} :: 0 <= i < |nodes| - 1 ==> nodes[i].next == nodes[i + 1]
    }

    ghost function View(): Shared
      reads this
    {
      Shared(threadCount, activeCount, queue, running, shuttingDown)
    }

    constructor (config: Config)
      ensures Valid() && this.config == config && fresh(this) && nodes == []
      ensures View() == Shared(0, 0, [], true, false)
    {
      this.config := config;
      threadCount, activeCount, taskCount := 0, 0, 0;
      taskHead, taskTail := null, null;
      running, shuttingDown := true, false;
      nodes, queue := [], [];
    }

    method WorkerSection(timedOut: bool) returns (move: WorkerMove)
      requires Valid()
      modifies this
      ensures Valid() && (View(), move) == WorkerTurn(config, old(View()), timedOut)
      ensures nodes == if move.Start? then old(nodes)[1..] else old(nodes)
    {
      if timedOut && threadCount > config.minThreads {
        threadCount := threadCount - 1;
        return Exit;
      }
      if taskHead == null && !shuttingDown {
        return Wait;
      }
      if shuttingDown && taskHead == null {
        threadCount := threadCount - 1;
        return Exit;
      }
      var task := taskHead;
      taskHead := task.next;
      if taskHead == null {
        taskTail := null;
      }
      taskCount := taskCount - 1;
      activeCount := activeCount + 1;
      nodes, queue := nodes[1..], queue[1..];
      return Start(task.task);
    }

    method FinishSection() returns (signal: bool)
      requires Valid()
      modifies this`activeCount
      ensures Valid() && (View(), signal) == FinishTurn(config, old(View()))
    {
      activeCount := activeCount - 1;
      signal := taskCount < config.queueSize;
    }

    method SubmitSection(t: Task, gotNode: bool, gotThread: bool) returns (move: SubmitMove)
      requires Valid()
      modifies this, nodes
      ensures Valid() && (View(), move) == SubmitTurn(config, old(View()), t, gotNode, gotThread)
      ensures move.Return? && move.status == OK ==> |nodes| == |old(nodes)| + 1 && nodes[..|old(nodes)|] == old(nodes)
                                                    && fresh(nodes[|old(nodes)|])
    {
      if shuttingDown {
        return Return(NOT_READY, false);
      }
      if taskCount >= config.queueSize {
        return Block;
      }
      if !gotNode {
        return Return(NO_MEMORY, false);
      }
      var task := new TaskNode(t);
      if taskTail != null {
        taskTail.next := task;
      } else {
        taskHead := task;
      }
      taskTail := task;
      taskCount := taskCount + 1;
      nodes, queue := nodes + [task], queue + [t];
      var spawned := false;
      if threadCount < config.maxThreads && activeCount == threadCount {
        if gotThread {
          threadCount := threadCount + 1;
          spawned := true;
        }
      }
      return Return(OK, spawned);
    }

    method DestroySection()
      requires Valid()
      modifies this`running, this`shuttingDown
      ensures Valid() && View() == DestroyTurn(old(View()))
    {
      shuttingDown := true;
      running := false;
    }

    /** The last loop of destroy: every leftover node is given back once, in queue order. */
    method FreeQueue() returns (ghost freed: seq<TaskNode>)
      requires Valid()
      ensures freed == nodes
    {
      var task := taskHead;
      freed := [];
      while task != null
        invariant |freed| <= |nodes| && freed == nodes[..|freed|]
        invariant task == if |freed| < |nodes| then nodes[|freed|] else null
        decreases |nodes| - |freed|
      {
        freed := freed + [task];
        task := task.next;
      }
    }
  }
}
