/**
 * The thread pool's bookkeeping: a TaskQueue is a fixed ring of max_tasks
 * task slots with a front index, a rear index and a count of active tasks;
 * a ThreadPool owns one queue and a terminated flag. Tasks are pushed at
 * the front (front steps back one slot) and workers take them from the
 * front (front steps forward one slot), and nothing ever moves the rear
 * from 0, so the ring is a stack of the queued tasks, the last one pushed
 * on top.
 *
 * Only the state is modelled: locks, condition variables and the worker
 * threads are not, a worker's loop is the two steps Take and Complete, and
 * the function a task runs is outside the model, so its output is given to
 * Complete. A ring may fill up completely, and then front == rear as when
 * it is empty (see FullRingReadsEmpty), so the workers' emptiness test is
 * the corrected one: it looks at a count of the queued tasks.
 */
module Multithreading {

  datatype Option<T> = None | Some(value: T)

  /** A C pointer that is only compared with NULL and passed on. */
  datatype Pointer = Null | Address(addr: nat)

  /**
   * What a worker's turn round its loop comes to: it finds the pool
   * terminated and leaves, it finds no task and waits, or it takes a task
   * to run.
   */
  datatype Dequeued = Exit | Wait | Run(task: Task)

  /** The slot front moves to when a task is pushed: one back, round the ring. */
  function PushFront(front: int, maxTasks: int): (f: int)
    requires 0 <= front < maxTasks
    ensures 0 <= f < maxTasks
  {
    if front == 0 then maxTasks - 1 else front - 1
  }

  /** The slot front moves to when a worker takes a task: one on, round the ring. */
  function TakeFront(front: int, maxTasks: int): (f: int)
    requires 0 <= front < maxTasks
    ensures 0 <= f < maxTasks
  {
    (front + 1) % maxTasks
  }

  /** A take wraps from the last slot to slot 0 and otherwise moves one slot on. */
  lemma TakeFrontSteps(front: int, maxTasks: int)
    requires 0 <= front < maxTasks
    ensures TakeFront(front, maxTasks) == if front == maxTasks - 1 then 0 else front + 1
  {
    if front == maxTasks - 1 {
      assert (front + 1) % maxTasks == maxTasks % maxTasks == 0;
    }
  }

  /** A take undoes a push and a push undoes a take, on any slot of the ring. */
  lemma RingInverse(front: int, maxTasks: int)
    requires 0 <= front < maxTasks
    ensures TakeFront(PushFront(front, maxTasks), maxTasks) == front
    ensures PushFront(TakeFront(front, maxTasks), maxTasks) == front
  {
    TakeFrontSteps(front, maxTasks);
    TakeFrontSteps(PushFront(front, maxTasks), maxTasks);
  }

  /** Where front is after k pushes and no take. */
  function Pushes(front: int, k: nat, maxTasks: int): (f: int)
    requires 0 <= front < maxTasks
    ensures 0 <= f < maxTasks
  {
    if k == 0 then front else PushFront(Pushes(front, k - 1, maxTasks), maxTasks)
  }

  /**
   * From the slot a new pool starts at, k pushes (at most a ringful) put
   * front at max_tasks - k, round the ring: back at slot 0 after none and
   * after exactly max_tasks.
   */
  lemma {:induction false} PushesFromZero(k: nat, maxTasks: int)
    requires k <= maxTasks && 0 < maxTasks
    ensures Pushes(0, k, maxTasks) == if k == 0 || k == maxTasks then 0 else maxTasks - k
  {
    if k > 0 {
      PushesFromZero(k - 1, maxTasks);
    }
  }

  /** The capacity test of addTaskFront: room while fewer than max_tasks tasks are active. */
  predicate HasRoom(noActiveTasks: int, maxTasks: int)
  {
    noActiveTasks < maxTasks
  }

  /** The emptiness test of the worker loop as written: front == rear. */
  predicate ReadsEmptyAsWritten(front: int, rear: int)
  {
    front == rear
  }

  /** The part of a ring the pushes change: where front is and how many tasks are active. */
  datatype RingState = RingState(front: int, active: int)

  /**
   * One addTaskFront of a valid task on that state, with the capacity test
   * of the source: None when it answers -1, otherwise the new state.
   */
  function PushState(r: RingState, maxTasks: int): (o: Option<RingState>)
    requires 0 <= r.front < maxTasks
    ensures o.Some? <==> HasRoom(r.active, maxTasks)
    ensures o.Some? ==> 0 <= o.value.front < maxTasks && o.value.active == r.active + 1
  {
    if HasRoom(r.active, maxTasks) then Some(RingState(PushFront(r.front, maxTasks), r.active + 1)) else None
  }

  /** k pushes of valid tasks in a row, no take between them: None as soon as one is refused. */
  function PushStates(r: RingState, k: nat, maxTasks: int): (o: Option<RingState>)
    requires 0 <= r.front < maxTasks
    ensures o.Some? ==> 0 <= o.value.front < maxTasks
  {
    if k == 0 then Some(r)
    else match PushStates(r, k - 1, maxTasks)
      case None => None
      case Some(t) => PushState(t, maxTasks)
  }

  /** From a new pool, the first k pushes (at most a ringful) are all accepted: front is where k pushes put it and k tasks are active. */
  lemma {:induction false} PushStatesFromNew(k: nat, maxTasks: int)
    requires k <= maxTasks && 0 < maxTasks
    ensures PushStates(RingState(0, 0), k, maxTasks) == Some(RingState(Pushes(0, k, maxTasks), k))
  {
    if k > 0 {
      PushStatesFromNew(k - 1, maxTasks);
    }
  }

  /**
   * A new pool accepts max_tasks pushes of valid tasks in a row; none has
   * been taken, so all max_tasks are queued, and front is back at the rear
   * slot 0. The worker's test as written then reads this full ring as
   * empty, and every worker waits for ever. With max_tasks == 1 a single
   * push does it.
   */
  lemma FullRingReadsEmpty(maxTasks: int)
    requires 0 < maxTasks
    ensures PushStates(RingState(0, 0), maxTasks, maxTasks) == Some(RingState(0, maxTasks))
    ensures ReadsEmptyAsWritten(PushStates(RingState(0, 0), maxTasks, maxTasks).value.front, 0)
  {
    PushStatesFromNew(maxTasks, maxTasks);
    PushesFromZero(maxTasks, maxTasks);
  }

  /** A task: the routine (a function pointer) to run on its argument, its output and whether it has run. */
  class Task {
    var routine: Pointer
    var args: Pointer
    var isDone: bool
    var output: Pointer
    /** Carried along but never read by the pool; lower is meant as more urgent. */
    var priority: int

    /** A task as its callers build it, before it is handed to a pool. */
    constructor (routine: Pointer, args: Pointer)
      ensures this.routine == routine && this.args == args
      ensures !isDone && output == Null && priority == 0
    {
      this.routine := routine;
      this.args := args;
      isDone := false;
      output := Null;
      priority := 0;
    }
  }

  /**
   * The ring of a pool. pending is the stack of queued tasks, top first,
   * and running the tasks taken by workers and not yet completed; both are
   * ghost: the source keeps only the slots and the count of all active
   * tasks, queued or running. queued, the number of queued tasks, is not in
   * the source: it is what the corrected emptiness test reads.
   */
  class TaskQueue {
    const tasks: array<Task?>
    const maxTasks: int
    var front: int
    var rear: int
    var noActiveTasks: int
    var queued: int
    ghost var pending: seq<Task>
    ghost var running: multiset<Task>

    /**
     * The queued tasks sit in the slots from front on, top first, up to the
     * end of the array (front is 0 when the ring is empty and when it is
     * full); queued counts them; the active count is queued plus running,
     * and stays within the capacity.
     */
    ghost predicate Valid()
      reads this, tasks
    {
      && tasks.Length == maxTasks > 0
      && rear == 0
      && |pending| <= maxTasks
      && queued == |pending|
      && front == (if |pending| == 0 then 0 else maxTasks - |pending|)
      && (forall i :: 0 <= i < |pending| ==> tasks[front + i] == pending[i])
      && noActiveTasks == |pending| + |running|
      && 0 <= noActiveTasks <= maxTasks
    }

    /**
     * The queue part of createThreadPool: max_tasks slots, each set to
     * NULL, front and rear at slot 0, and no active task (the source leaves
     * that count uninitialised).
     */
    constructor (maxTasks: int)
      requires 0 < maxTasks
      ensures Valid() && fresh(tasks)
      ensures this.maxTasks == maxTasks && front == 0 && rear == 0 && noActiveTasks == 0 && queued == 0
      ensures pending == [] && running == multiset{}
      ensures forall i :: 0 <= i < tasks.Length ==> tasks[i] == null
    {
      this.maxTasks := maxTasks;
      tasks := new Task?[maxTasks];
      front := 0;
      rear := 0;
      noActiveTasks := 0;
      queued := 0;
      pending := [];
      running := multiset{};
      new;
      var i := 0;
      while i < maxTasks
        invariant 0 <= i <= maxTasks
        invariant front == 0 && rear == 0 && noActiveTasks == 0 && queued == 0 && pending == [] && running == multiset{}
        invariant forall j :: 0 <= j < i ==> tasks[j] == null
      {
        tasks[i] := null;
        i := i + 1;
      }
    }

    /**
     * The worker's emptiness test as written, front == rear, holds exactly
     * when the ring is empty or full: it cannot tell the two apart.
     */
    lemma ReadsEmptyWhenEmptyOrFull()
      requires Valid()
      ensures ReadsEmptyAsWritten(front, rear) <==> |pending| == 0 || |pending| == maxTasks
    {
    }
  }

  /** A pool: its worker count, its ring and whether it is being destroyed. */
  class ThreadPool {
    const maxThreads: int
    const queue: TaskQueue
    var terminated: bool

    ghost predicate Valid()
      reads this, queue, queue.tasks
    {
      queue.Valid()
    }

    /**
     * createThreadPool: a pool of max_threads workers whose ring of
     * max_tasks slots is empty and which is not terminated. Starting the
     * workers is not modelled.
     */
    constructor (maxThreads: int, maxTasks: int)
      requires 0 < maxTasks
      ensures Valid() && fresh(queue) && fresh(queue.tasks)
      ensures this.maxThreads == maxThreads && !terminated
      ensures queue.maxTasks == maxTasks && queue.front == 0 && queue.rear == 0
      ensures queue.noActiveTasks == 0 && queue.queued == 0 && queue.pending == [] && queue.running == multiset{}
      ensures forall i :: 0 <= i < queue.tasks.Length ==> queue.tasks[i] == null
    {
      terminated := false;
      queue := new TaskQueue(maxTasks);
      this.maxThreads := maxThreads;
    }

    /**
     * addTaskFront: -1 with nothing changed when the ring has no room, or
     * else when the task or its function is NULL; otherwise the task is
     * reset (not done, no output), pushed on top of the stack at the slot
     * before front, counted as active, and the answer is 0.
     */
    method AddTaskFront(task: Task?) returns (status: int)
      requires Valid()
      modifies queue, queue.tasks, task
      ensures Valid()
      ensures status == 0 || status == -1
      ensures status == -1 <==>
                !HasRoom(old(queue.noActiveTasks), queue.maxTasks) || task == null || old(task.routine) == Null
      ensures status == -1 ==>
                unchanged(queue, queue.tasks) && (task != null ==> unchanged(task))
      ensures status == 0 ==>
                && task != null && !task.isDone && task.output == Null
                && task.routine == old(task.routine) && task.args == old(task.args)
                && task.priority == old(task.priority)
                && queue.front == PushFront(old(queue.front), queue.maxTasks)
                && queue.tasks[queue.front] == task
                && queue.noActiveTasks == old(queue.noActiveTasks) + 1
                && queue.queued == old(queue.queued) + 1
                && queue.pending == [task] + old(queue.pending)
                && queue.running == old(queue.running)
    {
      if !HasRoom(queue.noActiveTasks, queue.maxTasks) {
        return -1;
      }
      if task == null || task.routine == Null {
        return -1;
      }
      task.isDone := false;
      task.output := Null;
      if queue.front == 0 {
        queue.front := queue.maxTasks - 1;
      } else {
        queue.front := queue.front - 1;
      }
      queue.tasks[queue.front] := task;
      queue.noActiveTasks := queue.noActiveTasks + 1;
      queue.queued := queue.queued + 1;
      queue.pending := [task] + queue.pending;
      return 0;
    }

    /**
     * The dequeue step of worker, with the corrected emptiness test: in a
     * terminated pool the worker leaves; with no task queued it waits;
     * otherwise it takes the task at front, the top of the stack, and front
     * moves one slot on. The taken task is still active: it is running. A
     * full ring, whose front is back at rear, is read as full: its top task
     * is taken.
     */
    method Take() returns (d: Dequeued)
      requires Valid()
      modifies queue
      ensures Valid()
      ensures terminated ==> d == Exit && unchanged(queue)
      ensures !terminated && old(queue.pending) == [] ==> d == Wait && unchanged(queue)
      ensures !terminated && old(queue.pending) != [] ==>
                && d == Run(old(queue.pending)[0])
                && queue.front == TakeFront(old(queue.front), queue.maxTasks)
                && queue.pending == old(queue.pending)[1..]
                && queue.queued == old(queue.queued) - 1
                && queue.running == old(queue.running) + multiset{old(queue.pending)[0]}
                && queue.noActiveTasks == old(queue.noActiveTasks)
    {
      // the source waits while front == rear, which a full ring also meets
      if queue.queued == 0 && !terminated {
        return Wait;
      }
      if terminated {
        return Exit;
      }
      var task := queue.tasks[queue.front];
      assert task == queue.pending[0];
      TakeFrontSteps(queue.front, queue.maxTasks);
      queue.front := (queue.front + 1) % queue.maxTasks;
      queue.queued := queue.queued - 1;
      queue.pending := queue.pending[1..];
      queue.running := queue.running + multiset{task};
      return Run(task);
    }

    /**
     * The completion step of worker, once the function of the task it took
     * has returned output: the task keeps the output and is done, and it is
     * no longer active.
     */
    method Complete(task: Task, output: Pointer)
      requires Valid() && task in queue.running
      modifies task, queue
      ensures Valid()
      ensures task.output == output && task.isDone
      ensures task.routine == old(task.routine) && task.args == old(task.args)
      ensures task.priority == old(task.priority)
      ensures queue.noActiveTasks == old(queue.noActiveTasks) - 1
      ensures queue.running == old(queue.running) - multiset{task}
      ensures queue.front == old(queue.front) && queue.queued == old(queue.queued)
      ensures queue.pending == old(queue.pending)
    {
      task.output := output;
      task.isDone := true;
      queue.noActiveTasks := queue.noActiveTasks - 1;
      queue.running := queue.running - multiset{task};
    }

    /** The flag destroyThreadPool raises before it stops the workers; the ring is untouched. */
    method Destroy()
      requires Valid()
      modifies this
      ensures Valid() && terminated && unchanged(queue)
    {
      terminated := true;
    }

    /**
     * waitForTask without the blocking: it returns at once when the task
     * has no function, returns once the task is done, and otherwise would
     * block until a worker completes it (returned is false).
     */
    method WaitForTask(task: Task) returns (returned: bool)
      ensures returned <==> task.routine == Null || task.isDone
    {
      if task.routine == Null {
        return true;
      }
      returned := task.isDone;
    }

    /**
     * A push and a take in a row hand the pushed task back and leave the
     * queue as it was, except that the task is now running: the ring is
     * last in, first out.
     */
    method PushThenTake(task: Task) returns (status: int, d: Dequeued)
      requires Valid() && !terminated
      modifies queue, queue.tasks, task
      ensures Valid()
      ensures status == 0 ==>
                d == Run(task) && queue.front == old(queue.front) && queue.pending == old(queue.pending)
    {
      status := AddTaskFront(task);
      d := Take();
      if status == 0 {
        RingInverse(old(queue.front), queue.maxTasks);
      }
    }

    /**
     * On a new pool, max_tasks pushes of valid tasks in a row are all
     * accepted and fill the ring: every slot holds a queued task, and front
     * is back at rear, which the worker's test as written reads as empty.
     */
    method FillRing(ts: seq<Task>) returns (statuses: seq<int>)
      requires Valid() && queue.pending == [] && queue.running == multiset{}
      requires |ts| == queue.maxTasks && forall i :: 0 <= i < |ts| ==> ts[i].routine != Null
      modifies queue, queue.tasks, ts
      ensures Valid()
      ensures |statuses| == |ts| && forall i :: 0 <= i < |statuses| ==> statuses[i] == 0
      ensures |queue.pending| == queue.maxTasks && queue.noActiveTasks == queue.maxTasks
      ensures ReadsEmptyAsWritten(queue.front, queue.rear)
    {
      statuses := [];
      var i := 0;
      while i < |ts|
        invariant 0 <= i <= |ts| && Valid()
        invariant |queue.pending| == i && queue.running == multiset{}
        invariant |statuses| == i && forall j :: 0 <= j < i ==> statuses[j] == 0
        invariant forall j :: i <= j < |ts| ==> ts[j].routine != Null
      {
        var status := AddTaskFront(ts[i]);
        statuses := statuses + [status];
        i := i + 1;
      }
      queue.ReadsEmptyWhenEmptyOrFull();
    }
  }
}
