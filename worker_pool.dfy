/** The dispatcher of image-worker.js: class `WorkerPool` keeps a FIFO queue
    of tasks and a status ("idle" or "busy") per worker. Adding a task pokes
    the first idle worker; a worker's "ready" is a dispatch attempt for it; a
    worker's "task_complete" looks the task up in the queue, resolves it if it
    is there, marks the worker idle and tries to dispatch to it again.

    Each message callback runs to completion before the next one starts, so
    each is one method here. Posting a message to a worker appends to
    `outbox`; resolving a task's promise appends to `resolved`. */
module Pool {
  import opened Messages

  /** Workers are numbered in creation order. */
  type WorkerId = nat

  datatype WorkerStatus = Idle | Busy

  /** A queued job; its promise is identified with the task itself. */
  datatype Task = Task(id: TaskId, image: string, config: Config)

  /** A message posted to a worker. */
  datatype Posted = Posted(to: WorkerId, message: ToWorker)

  /** A task's promise resolved with a result. */
  datatype Resolution = Resolution(task: Task, result: ImageResult)

  /** The "process_image" message that hands `t` to a worker. */
  function Request(t: Task): ToWorker
  {
    ProcessImage(t.id, t.image, t.config)
  }

  /** `workerStatus.get(w) === "idle"`: a worker the map does not know is
      not idle. */
  predicate IsIdle(status: map<WorkerId, WorkerStatus>, w: WorkerId)
  {
    w in status && status[w] == Idle
  }

  /** `workers.find(w => workerStatus.get(w) === "idle")`. */
  function FirstIdle(ws: seq<WorkerId>, status: map<WorkerId, WorkerStatus>): (r: Option<WorkerId>)
    ensures r.None? <==> forall j :: 0 <= j < |ws| ==> !IsIdle(status, ws[j])
    ensures r.Some? ==> exists k :: 0 <= k < |ws| && ws[k] == r.value && IsIdle(status, ws[k])
                                    && forall j :: 0 <= j < k ==> !IsIdle(status, ws[j])
  {
    if ws == [] then None
    else if IsIdle(status, ws[0]) then Some(ws[0])
    else
      var r := FirstIdle(ws[1..], status);
      assert forall j :: 1 <= j < |ws| ==> ws[j] == ws[1..][j - 1];
      r
  }

  /** `tasks.find(t => t.id === id)`. */
  function FirstWithId(tasks: seq<Task>, id: TaskId): (r: Option<Task>)
    ensures r.None? <==> forall j :: 0 <= j < |tasks| ==> tasks[j].id != id
    ensures r.Some? ==> exists k :: 0 <= k < |tasks| && tasks[k] == r.value && tasks[k].id == id
                                    && forall j :: 0 <= j < k ==> tasks[j].id != id
  {
    if tasks == [] then None
    else if tasks[0].id == id then Some(tasks[0])
    else
      var r := FirstWithId(tasks[1..], id);
      assert forall j :: 1 <= j < |tasks| ==> tasks[j] == tasks[1..][j - 1];
      r
  }

  /** `tasks.filter(t => t.id !== id)`: every task with that id is dropped,
      every other task is kept; with no such task the queue is unchanged. */
  function WithoutId(tasks: seq<Task>, id: TaskId): (r: seq<Task>)
    ensures forall t :: t in r <==> t in tasks && t.id != id
    ensures |r| <= |tasks|
    ensures (forall j :: 0 <= j < |tasks| ==> tasks[j].id != id) ==> r == tasks
  {
    if tasks == [] then []
    else
      var rest := WithoutId(tasks[1..], id);
      assert tasks == [tasks[0]] + tasks[1..];
      if tasks[0].id == id then rest else [tasks[0]] + rest
  }

  /** On one task the filter keeps it exactly when its id differs. */
  lemma WithoutIdSingleton(t: Task, id: TaskId)
    ensures WithoutId([t], id) == if t.id == id then [] else [t]
  {
  }

  /** The filter works task by task: filtering a concatenation filters each
      part and keeps them in order. With WithoutIdSingleton this fixes the
      result completely: the kept tasks stay in queue order, each copy kept. */
  lemma {:induction false} WithoutIdAppend(a: seq<Task>, b: seq<Task>, id: TaskId)
    ensures WithoutId(a + b, id) == WithoutId(a, id) + WithoutId(b, id)
  {
    if a == [] {
      assert a + b == b;
    } else {
      var ab := a + b;
      assert ab[0] == a[0];
      assert ab[1..] == a[1..] + b;
      WithoutIdAppend(a[1..], b, id);
    }
  }

  /** The guard of `processNextTask`: a task is waiting and `w` is idle. */
  predicate CanDispatch(tasks: seq<Task>, status: map<WorkerId, WorkerStatus>, w: WorkerId)
  {
    tasks != [] && IsIdle(status, w)
  }

  class WorkerPool {
    const numWorkers: nat
    var workers: seq<WorkerId>
    var tasks: seq<Task>
    var workerStatus: map<WorkerId, WorkerStatus>
    var outbox: seq<Posted>
    var resolved: seq<Resolution>

    /** The workers are 0 .. numWorkers-1, in creation order, and the status
        map has exactly them as keys. */
    ghost predicate Valid()
      reads this
    {
      && |workers| == numWorkers
      && (forall i :: 0 <= i < |workers| ==> workers[i] == i)
      && (forall w: WorkerId :: w in workerStatus <==> w < numWorkers)
    }

    /** No task waits while a worker is idle. */
    ghost predicate WorkConserving()
      reads this
    {
      tasks != [] ==> forall w: WorkerId :: w in workerStatus ==> workerStatus[w] == Busy
    }

    /** The state after `processNextTask(w)`: if the guard held, the head of
        the queue, and only it, went to `w`, which is now busy; otherwise
        nothing changed. */
    twostate predicate DispatchStep(w: WorkerId)
      reads this
    {
      && workers == old(workers)
      && resolved == old(resolved)
      && (old(CanDispatch(tasks, workerStatus, w)) ==>
            && tasks == old(tasks)[1..]
            && workerStatus == old(workerStatus)[w := Busy]
            && outbox == old(outbox) + [Posted(w, Request(old(tasks)[0]))])
      && (!old(CanDispatch(tasks, workerStatus, w)) ==>
            tasks == old(tasks) && workerStatus == old(workerStatus) && outbox == old(outbox))
    }

    /** The state after `task_complete` from `w` for `taskId`: the first
        queued task with that id, if any, is resolved with `result` and every
        task with that id leaves the queue; then `w` is idle and receives the
        head of what is left, if anything is left. */
    twostate predicate CompletionStep(w: WorkerId, taskId: TaskId, result: ImageResult)
      reads this
    {
      var q := WithoutId(old(tasks), taskId);
      && workers == old(workers)
      && resolved == old(resolved) + (match FirstWithId(old(tasks), taskId)
                                      case Some(t) => [Resolution(t, result)]
                                      case None => [])
      && (q != [] ==>
            && tasks == q[1..]
            && workerStatus == old(workerStatus)[w := Busy]
            && outbox == old(outbox) + [Posted(w, Request(q[0]))])
      && (q == [] ==>
            && tasks == []
            && workerStatus == old(workerStatus)[w := Idle]
            && outbox == old(outbox))
    }

    /** `new WorkerPool(path, numWorkers)`: `numWorkers` workers, all idle,
        no task. */
    constructor (numWorkers: nat)
      ensures Valid() && WorkConserving()
      ensures this.numWorkers == numWorkers
      ensures forall w: WorkerId :: w in workerStatus ==> workerStatus[w] == Idle
      ensures tasks == [] && outbox == [] && resolved == []
    {
      this.numWorkers := numWorkers;
      workers := [];
      tasks := [];
      workerStatus := map[];
      outbox := [];
      resolved := [];
      new;
      Init();
    }

    /** `init`: create workers 0 .. numWorkers-1 in order. */
    method Init()
      requires workers == [] && workerStatus == map[]
      modifies this
      ensures Valid()
      ensures forall w: WorkerId :: w in workerStatus ==> workerStatus[w] == Idle
      ensures tasks == old(tasks) && outbox == old(outbox) && resolved == old(resolved)
    {
      for i := 0 to numWorkers
        invariant |workers| == i && forall j :: 0 <= j < i ==> workers[j] == j
        invariant forall w: WorkerId :: w in workerStatus <==> w < i
        invariant forall w: WorkerId :: w in workerStatus ==> workerStatus[w] == Idle
        invariant tasks == old(tasks) && outbox == old(outbox) && resolved == old(resolved)
      {
        CreateWorker(i);
      }
    }

    /** `createWorker(id)`: the new worker joins the list and starts "idle". */
    method CreateWorker(id: WorkerId)
      modifies this
      ensures workers == old(workers) + [id]
      ensures workerStatus == old(workerStatus)[id := Idle]
      ensures tasks == old(tasks) && outbox == old(outbox) && resolved == old(resolved)
    {
      workers := workers + [id];
      workerStatus := workerStatus[id := Idle];
    }

    /** `processNextTask(worker)`. */
    method ProcessNextTask(w: WorkerId)
      requires Valid()
      modifies this
      ensures Valid()
      ensures DispatchStep(w)
    {
      if CanDispatch(tasks, workerStatus, w) {
        var task := tasks[0];
        tasks := tasks[1..];
        workerStatus := workerStatus[w := Busy];
        outbox := outbox + [Posted(w, Request(task))];
      }
    }

    /** The "find" over `workers` in `addTask`. */
    method FindIdleWorker() returns (r: Option<WorkerId>)
      ensures r == FirstIdle(workers, workerStatus)
    {
      var i := 0;
      while i < |workers|
        invariant 0 <= i <= |workers|
        invariant FirstIdle(workers, workerStatus) == FirstIdle(workers[i..], workerStatus)
      {
        if IsIdle(workerStatus, workers[i]) {
          return Some(workers[i]);
        }
        assert workers[i..][1..] == workers[i + 1..];
        i := i + 1;
      }
      return None;
    }

    /** The "find" over `tasks` in the "task_complete" handler. */
    method FindTask(taskId: TaskId) returns (r: Option<Task>)
      ensures r == FirstWithId(tasks, taskId)
    {
      var i := 0;
      while i < |tasks|
        invariant 0 <= i <= |tasks|
        invariant FirstWithId(tasks, taskId) == FirstWithId(tasks[i..], taskId)
      {
        if tasks[i].id == taskId {
          return Some(tasks[i]);
        }
        assert tasks[i..][1..] == tasks[i + 1..];
        i := i + 1;
      }
      return None;
    }

    /** `addTask(image, config)` with the id the caller drew: the task joins
        the tail of the queue, and if some worker is idle the first idle one
        in creation order is handed the queue head. Since no task waits while
        a worker is idle, that head is the new task itself. */
    method AddTask(id: TaskId, image: string, config: Config)
      requires Valid() && WorkConserving()
      modifies this
      ensures Valid() && WorkConserving()
      ensures workers == old(workers) && resolved == old(resolved)
      ensures var t := Task(id, image, config);
        match FirstIdle(old(workers), old(workerStatus))
        case None =>
          && tasks == old(tasks) + [t]
          && workerStatus == old(workerStatus)
          && outbox == old(outbox)
        case Some(w) =>
          && old(tasks) == []
          && tasks == (old(tasks) + [t])[1..]
          && workerStatus == old(workerStatus)[w := Busy]
          && outbox == old(outbox) + [Posted(w, Request(t))]
    {
      var t := Task(id, image, config);
      tasks := tasks + [t];
      var idle := FindIdleWorker();
      if idle.Some? {
        var w := idle.value;
        assert IsIdle(workerStatus, w);
        assert old(tasks) == [];
        ProcessNextTask(w);
      } else {
        forall v | v in workerStatus ensures workerStatus[v] == Busy {
          assert workers[v] == v;
          assert !IsIdle(workerStatus, workers[v]);
        }
      }
    }

    /** A "ready" message from `w`: only a dispatch attempt for `w`. In a
        pool where no task waits while a worker is idle it never dispatches,
        so it changes nothing. */
    method OnReady(w: WorkerId)
      requires Valid() && WorkConserving()
      modifies this
      ensures Valid() && WorkConserving()
      ensures DispatchStep(w)
      ensures tasks == old(tasks) && workerStatus == old(workerStatus) && outbox == old(outbox)
    {
      ProcessNextTask(w);
    }

    /** A "task_complete" message from `w`. The task was shifted out of the
        queue when it was dispatched, so unless another queued task shares its
        id the lookup finds nothing and no promise is resolved. */
    method OnTaskComplete(w: WorkerId, taskId: TaskId, result: ImageResult)
      requires Valid() && WorkConserving() && w in workerStatus
      modifies this
      ensures Valid() && WorkConserving()
      ensures CompletionStep(w, taskId, result)
    {
      var task := FindTask(taskId);
      if task.Some? {
        resolved := resolved + [Resolution(task.value, result)];
        tasks := WithoutId(tasks, taskId);
      }
      assert tasks == WithoutId(old(tasks), taskId);
      if tasks != [] {
        assert tasks[0] in tasks;
        assert forall v: WorkerId :: v in workerStatus ==> workerStatus[v] == Busy;
      }
      workerStatus := workerStatus[w := Idle];
      ProcessNextTask(w);
    }

    /** The worker's "message" listener: "ready" and "task_complete" are
        handled as above, any other message type is ignored. */
    method OnMessage(w: WorkerId, message: FromWorker)
      requires Valid() && WorkConserving() && w in workerStatus
      modifies this
      ensures Valid() && WorkConserving()
      ensures message.Ready? ==> DispatchStep(w)
      ensures message.TaskComplete? ==> CompletionStep(w, message.taskId, message.result)
      ensures !message.TaskComplete? ==>
        && tasks == old(tasks) && workerStatus == old(workerStatus)
        && outbox == old(outbox) && resolved == old(resolved)
    {
      match message
      case Ready => OnReady(w);
      case TaskComplete(taskId, result) => OnTaskComplete(w, taskId, result);
      case OtherReply(_) =>
    }
  }

  /** A fresh pool given one task: the task goes to worker 0 at once, and
      the "task_complete" that worker sends for it resolves nothing, because
      the completion handler searches only the queue, which the task left on
      dispatch. The queue is empty and worker 0 is idle again. */
  method DispatchedTaskIsNeverResolved(numWorkers: nat, id: TaskId, image: string, config: Config, result: ImageResult)
    returns (resolved: seq<Resolution>, pending: seq<Task>, posted: seq<Posted>, worker0: WorkerStatus)
    requires numWorkers > 0
    ensures posted == [Posted(0, ProcessImage(id, image, config))]
    ensures resolved == [] && pending == [] && worker0 == Idle
  {
    var pool := new WorkerPool(numWorkers);
    assert pool.workers[0] == 0 && IsIdle(pool.workerStatus, 0);
    pool.AddTask(id, image, config);
    pool.OnTaskComplete(0, id, result);
    resolved, pending, posted, worker0 := pool.resolved, pool.tasks, pool.outbox, pool.workerStatus[0];
  }
}
