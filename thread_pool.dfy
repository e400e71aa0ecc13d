/**
 * The task pool of 4/thread_pool.c as a sequential state machine.
 *
 * Every region the C code runs under a mutex is one method here, so the
 * interleavings of workers and callers are sequences of these steps.
 * A worker's loop body is split into its two locked regions: `WorkerDequeue`
 * (claim the head of the queue) and `WorkerFinish` (publish the result and,
 * for a detached task, retire it).
 */
module ThreadPool {

  // thread_pool.h, which defines the two limits, is not part of this model:
  // the values below are assumed, and the proofs use them only as caps.

  /** TPOOL_MAX_THREADS: the hard cap on a pool's worker count. */
  const MaxThreads: int := 20
  /** TPOOL_MAX_TASKS: the most tasks a pool holds that are not yet retired. */
  const MaxTasks: int := 100000

  /** The TPOOL_ERR_* codes the modelled operations return. */
  datatype Error =
    | InvalidArgument
    | TooManyTasks
    | HasTasks
    | TaskNotPushed
    | TaskInPool

  /** 0 or a TPOOL_ERR_* code. */
  datatype Outcome = Ok | Fail(error: Error)

  /** What `thread_task_join` hands back: the stored result, or an error code. */
  datatype JoinResult = Joined(value: int) | JoinFailed(error: Error)

  /** enum thread_task_status: IS_CREATED .. IS_FINISHED. */
  datatype Status = Created | Enqueued | Running | Finished

  /** What the worker loop does after one locked dequeue step. */
  datatype WorkerStep =
    | Exit            // the pool is deleted: the thread returns
    | Wait            // the queue is empty: the thread sleeps on task_added
    | Run(task: Task) // the thread claimed this task and will execute it

  /** struct thread_task. The function and argument are fixed at creation. */
  class Task {
    const fn: int -> int
    const arg: int
    var result: int
    var isDetached: bool
    var status: Status
    var pool: Pool?
    /** Set once `thread_task_delete` has released the task's memory. */
    var released: bool

    /** thread_task_new: always succeeds. */
    constructor (fn: int -> int, arg: int)
      ensures this.fn == fn && this.arg == arg
      ensures status == Created && pool == null && !isDetached && !released
    {
      this.fn := fn;
      this.arg := arg;
      result := 0;
      isDetached := false;
      status := Created;
      pool := null;
      released := false;
    }

    /**
     * thread_task_is_finished: a snapshot read of the status, taken without
     * the task's lock. A finished task is not running.
     */
    predicate IsFinished(): (b: bool)
      reads this
      ensures b ==> status != Running
    {
      status == Finished
    }

    /**
     * thread_task_is_running: a snapshot read of the status, taken without
     * the task's lock. A running task is not finished.
     */
    predicate IsRunning(): (b: bool)
      reads this
      ensures b ==> status != Finished
    {
      status == Running
    }

    /** The caller-side consistency condition: a task that names a pool is one
        of that pool's attached (pushed, not yet retired) tasks. */
    ghost predicate InPool()
      reads this, pool, if pool != null then pool.attached else {}
    {
      pool != null && pool.Valid() && this in pool.attached
    }

    /**
     * thread_task_join. The blocking wait for IS_FINISHED is abstracted into the
     * precondition: the step below is the locked region that runs once the
     * worker has published the result.
     */
    method Join() returns (r: JoinResult)
      requires !released
      requires pool != null ==> InPool() && status == Finished
      modifies this, pool
      ensures old(pool) == null ==> r == JoinFailed(TaskNotPushed) && unchanged(this)
      ensures old(pool) != null ==>
        && r == Joined(old(result))
        && r.value == fn(arg)
        && pool == null
        && old(pool).Valid()
        && old(pool).size == old(pool.size) - 1
        && old(pool).attached == old(pool.attached) - {this}
        && old(pool).queue == old(pool.queue)
        && old(pool).threadCount == old(pool.threadCount)
        && old(pool).isDeleted == old(pool.isDeleted)
        && status == Finished && result == old(result)
        && isDetached == old(isDetached) && !released
    {
      if pool != null {
        var p := pool;
        p.size := p.size - 1;
        p.attached := p.attached - {this};
        r := Joined(result);
        pool := null;
      } else {
        r := JoinFailed(TaskNotPushed);
      }
    }

    /** thread_task_delete: refused while the task is attached to a pool. */
    method Delete() returns (r: Outcome)
      requires !released
      modifies this
      ensures r == Fail(TaskInPool) <==> old(pool) != null
      ensures r == Ok <==> old(pool) == null
      ensures released == (old(pool) == null)
      ensures status == old(status) && pool == old(pool) && result == old(result)
      ensures isDetached == old(isDetached)
    {
      if pool == null {
        released := true;
        r := Ok;
      } else {
        r := Fail(TaskInPool);
      }
    }

    /**
     * thread_task_detach. A finished task is retired and deleted on the spot;
     * any other attached task is only marked, and the worker that finishes it
     * retires it (see `Pool.WorkerFinish`).
     */
    method Detach() returns (r: Outcome)
      requires !released
      requires pool != null ==> InPool()
      modifies this, pool
      ensures old(pool) == null ==> r == Fail(TaskNotPushed) && unchanged(this)
      ensures old(pool) != null ==>
        && r == Ok
        && old(pool).Valid()
        && old(pool).queue == old(pool.queue)
        && old(pool).threadCount == old(pool.threadCount)
        && old(pool).isDeleted == old(pool.isDeleted)
        && status == old(status) && result == old(result)
      ensures old(pool) != null && old(status) != Finished ==>
        && isDetached && pool == old(pool) && !released
        && old(pool).size == old(pool.size)
        && old(pool).attached == old(pool.attached)
      ensures old(pool) != null && old(status) == Finished ==>
        && pool == null && released && isDetached == old(isDetached)
        && old(pool).size == old(pool.size) - 1
        && old(pool).attached == old(pool.attached) - {this}
    {
      if pool != null {
        if status != Finished {
          isDetached := true;
        } else {
          var p := pool;
          p.size := p.size - 1;
          p.attached := p.attached - {this};
          pool := null;
          var deleted := Delete();
          assert deleted == Ok;
        }
        r := Ok;
      } else {
        r := Fail(TaskNotPushed);
      }
    }
  }

  /** struct thread_pool. */
  class Pool {
    const maxThreadCount: int
    var threadCount: int
    /** task_queue_head .. task_queue_tail: tasks pushed and not yet claimed. */
    var queue: seq<Task>
    /** task_queue_size: tasks pushed and not yet retired. */
    var size: int
    var isDeleted: bool
    /** The tasks pushed to this pool and not yet retired (queued, running or finished). */
    ghost var attached: set<Task>

    /** The pool invariant: the cap on threads and tasks, size counting submitted
        minus retired, and the queue holding exactly the attached tasks still enqueued. */
    ghost predicate Valid()
      reads this, attached
    {
      && 0 < maxThreadCount <= MaxThreads
      && 0 <= threadCount <= maxThreadCount
      && 0 <= size <= MaxTasks
      && size == |attached|
      && (forall i, j :: 0 <= i < j < |queue| ==> queue[i] != queue[j])
      && (forall i :: 0 <= i < |queue| ==> queue[i] in attached)
      && (forall t :: t in attached ==> t.pool == this && !t.released && t.status != Created)
      && (forall t :: t in attached ==> (t.status == Enqueued <==> t in queue))
      && (forall t :: t in attached && t.isDetached ==> t.status != Finished)
      && (forall t :: t in attached && t.status == Finished ==> t.result == t.fn(t.arg))
    }

    constructor (maxThreadCount: int)
      requires 0 < maxThreadCount <= MaxThreads
      ensures Valid() && this.maxThreadCount == maxThreadCount
      ensures threadCount == 0 && queue == [] && size == 0 && !isDeleted && attached == {}
    {
      this.maxThreadCount := maxThreadCount;
      threadCount := 0;
      queue := [];
      size := 0;
      isDeleted := false;
      attached := {};
    }

    /** thread_pool_new: validates the thread cap before building the pool. */
    static method New(maxThreadCount: int) returns (err: Outcome, pool: Pool?)
      ensures err == Ok <==> 0 < maxThreadCount <= MaxThreads
      ensures err != Ok ==> err == Fail(InvalidArgument) && pool == null
      ensures err == Ok ==>
        && pool != null && fresh(pool) && pool.Valid()
        && pool.maxThreadCount == maxThreadCount
        && pool.threadCount == 0 && pool.queue == [] && pool.size == 0
        && !pool.isDeleted && pool.attached == {}
    {
      if maxThreadCount <= MaxThreads && maxThreadCount > 0 {
        pool := new Pool(maxThreadCount);
        err := Ok;
      } else {
        pool := null;
        err := Fail(InvalidArgument);
      }
    }

    /** thread_pool_thread_count: never above the pool's cap. */
    function ThreadCount(): (n: int)
      reads this, attached
      requires Valid()
      ensures 0 <= n <= maxThreadCount <= MaxThreads
    {
      threadCount
    }

    /**
     * thread_pool_push_task. `task` must not be attached to any pool (it is new,
     * or a previous join retired it): pushing an attached task relinks its queue
     * pointer and corrupts the queue in the source.
     */
    method Push(task: Task) returns (r: Outcome)
      requires Valid() && !isDeleted
      requires task.pool == null && !task.released
      modifies this, task
      ensures Valid()
      ensures isDeleted == old(isDeleted)
      ensures r == Fail(TooManyTasks) <==> old(size) == MaxTasks
      ensures r == Ok <==> old(size) != MaxTasks
      ensures threadCount >= old(threadCount)
      ensures r != Ok ==> unchanged(this, task)
      ensures r == Ok ==>
        && size == old(size) + 1
        && queue == old(queue) + [task]
        && attached == old(attached) + {task}
        && task.status == Enqueued && task.pool == this
        && task.isDetached == old(task.isDetached) && task.result == old(task.result)
        && !task.released
        && threadCount == (if size > old(threadCount) && old(threadCount) != maxThreadCount
                           then old(threadCount) + 1 else old(threadCount))
    {
      if size != MaxTasks {
        size := size + 1;
        task.pool := this;
        task.status := Enqueued;
        queue := queue + [task];
        attached := attached + {task};
        if size > threadCount && threadCount != maxThreadCount {
          threadCount := threadCount + 1;
        }
        r := Ok;
      } else {
        r := Fail(TooManyTasks);
      }
    }

    /** thread_pool_delete: refused while any task is not retired. */
    method Delete() returns (r: Outcome)
      requires Valid()
      modifies this
      ensures Valid()
      ensures r == Fail(HasTasks) <==> old(size) != 0
      ensures r == Ok <==> old(size) == 0
      ensures r != Ok ==> unchanged(this)
      ensures r == Ok ==> isDeleted && queue == [] && attached == {} && size == 0
      ensures threadCount == old(threadCount) && queue == old(queue) && size == old(size)
      ensures attached == old(attached)
    {
      if size == 0 {
        QueueWithinSize(this);
        isDeleted := true;
        r := Ok;
      } else {
        r := Fail(HasTasks);
      }
    }

    /**
     * The first locked region of thread_task_executor's loop: exit on a deleted
     * pool, sleep on an empty queue, or unlink the head and mark it running.
     * The size is left alone: a running task is still counted.
     */
    method WorkerDequeue() returns (step: WorkerStep)
      requires Valid()
      modifies this, if queue != [] then {queue[0]} else {}
      ensures Valid()
      ensures old(isDeleted) ==> step == Exit
      ensures !old(isDeleted) && old(queue) == [] ==> step == Wait
      ensures !step.Run? ==> unchanged(this) && (old(queue) != [] ==> unchanged(old(queue[0])))
      ensures !old(isDeleted) && old(queue) != [] ==>
        && step == Run(old(queue[0]))
        && queue == old(queue[1..])
        && step.task.status == Running && old(step.task.status) == Enqueued
        && step.task.pool == this && step.task in attached
        && step.task.isDetached == old(step.task.isDetached)
        && step.task.result == old(step.task.result)
        && !step.task.released
      ensures size == old(size) && attached == old(attached)
      ensures threadCount == old(threadCount) && isDeleted == old(isDeleted)
    {
      if isDeleted {
        return Exit;
      }
      if queue == [] {
        return Wait;
      }
      var task := queue[0];
      queue := queue[1..];
      task.status := Running;
      step := Run(task);
      forall t | t in attached
        ensures t.status == Enqueued <==> t in queue
      {
        if t != task {
          assert t in old(queue) <==> t in queue by {
            if t in old(queue) {
              var k :| 0 <= k < |old(queue)| && old(queue)[k] == t;
              assert k != 0;
              assert queue[k - 1] == t;
            }
          }
        } else {
          assert forall j :: 0 <= j < |queue| ==> queue[j] == old(queue)[j + 1];
        }
      }
    }

    /**
     * The second locked region: store the function's value as the result, mark
     * the task finished, and for a detached task retire it (size down by one,
     * pool cleared) and delete it.
     */
    method WorkerFinish(task: Task)
      requires Valid() && task in attached && task.status == Running
      modifies this, task
      ensures Valid()
      ensures task.result == task.fn(task.arg) && task.status == Finished
      ensures task.isDetached == old(task.isDetached)
      ensures old(task.isDetached) ==>
        && size == old(size) - 1 && attached == old(attached) - {task}
        && task.pool == null && task.released
      ensures !old(task.isDetached) ==>
        && size == old(size) && attached == old(attached)
        && task.pool == this && !task.released
      ensures queue == old(queue) && threadCount == old(threadCount)
      ensures isDeleted == old(isDeleted)
    {
      task.result := task.fn(task.arg);
      task.status := Finished;
      if task.isDetached {
        size := size - 1;
        attached := attached - {task};
        task.pool := null;
        var deleted := task.Delete();
        assert deleted == Ok;
      }
    }
  }

  /** A sequence without repetitions drawn from a set is no longer than the set. */
  lemma {:induction false} DistinctWithin<T>(s: seq<T>, a: set<T>)
    requires forall i, j :: 0 <= i < j < |s| ==> s[i] != s[j]
    requires forall i :: 0 <= i < |s| ==> s[i] in a
    ensures |s| <= |a|
  {
    if s != [] {
      var rest := s[1..];
      assert forall i :: 0 <= i < |rest| ==> rest[i] == s[i + 1];
      DistinctWithin(rest, a - {s[0]});
    }
  }

  /** A pushed task that reports finished has published `function(arg)` and is not detached. */
  lemma FinishedHoldsResult(p: Pool, t: Task)
    requires p.Valid() && t in p.attached && t.IsFinished()
    ensures t.result == t.fn(t.arg) && !t.isDetached
  {
  }

  /** A pushed task that reports running has left the queue and still belongs to its pool. */
  lemma RunningNotQueued(p: Pool, t: Task)
    requires p.Valid() && t in p.attached && t.IsRunning()
    ensures t !in p.queue && t.pool == p
  {
  }

  /** The queue is part of what the size counts: at most `size` tasks wait in it,
      so a pool whose size is 0 has an empty queue. */
  lemma QueueWithinSize(p: Pool)
    requires p.Valid()
    ensures |p.queue| <= p.size
    ensures p.size == 0 ==> p.queue == []
  {
    DistinctWithin(p.queue, p.attached);
  }
}
