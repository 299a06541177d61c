# Multi-threaded image processor — a Dafny model

This project models the coordination logic of a small Node.js image
processor built on worker threads. It has two schemes:

- **Static sharding** (`main.js` with `worker.js`). The main thread cuts the
  image list into `ceil(n / numWorkers)`-sized contiguous shards and skips
  empty ones. Each shard goes to its own worker. That worker processes its
  images one by one, posts a progress message after each success, turns a
  failure into a "failed" record, and finally posts all its records. The
  main thread waits for every shard and concatenates the shard result
  lists in shard order.
- **A worker pool** (`image-worker.js` with `pool-worker.js`). Class
  `WorkerPool` keeps a FIFO queue of tasks and an "idle"/"busy" status per
  worker. Adding a task pokes the first idle worker. A worker's "ready" is a
  dispatch attempt. A worker's "task_complete" looks the task up in the
  queue, resolves it if found, marks the worker idle and tries to dispatch
  again. The pool worker posts "ready" once. It answers each
  "process_image" with one "task_complete" that carries the same task id.

The external image call (sharp in the shard worker, a timer in the pool
worker) becomes an `Outcome` value per image: either it returned, with the
rounded processing time the record reports, or it threw an error with a
message. The model receives these outcomes as inputs. The reported time is
a random number in both workers; in the shard worker the timer is commented
out, so the number says nothing about how long the call took.

Files:

- `messages.dfy` (module `Messages`): the configuration, outcome, result
  record and the messages exchanged with pool workers.
- `shard_worker.dfy` (module `ShardWorker`): `worker.js`.
- `sharding.dfy` (module `Sharding`): the sharding and collection in
  `main.js`.
- `pool_worker.dfy` (module `PoolWorker`): `pool-worker.js`.
- `worker_pool.dfy` (module `Pool`): class `WorkerPool` of
  `image-worker.js`, as a Dafny class whose methods update its fields.

**The lost resolution is modelled as written.** `processNextTask` shifts
the task out of the queue when it dispatches it. The "task_complete"
handler searches only the queue. So the completion of a dispatched task
finds nothing, and its promise is never resolved unless another queued
task has the same id. The model keeps this behaviour.
`Pool.DispatchedTaskIsNeverResolved` proves it for a fresh pool given one
task.

The pool also keeps the invariant `WorkConserving`: no task waits while a
worker is idle. One consequence is proved: a "ready" message changes
nothing in any state reachable through the handlers.

## Model

| member | source | states |
|---|---|---|
| Pool.FirstIdle | image-worker.js:80-82 | The result is `None` exactly when no listed worker is idle; otherwise it is an idle worker and every worker listed before it is not idle. |
| Pool.FirstWithId | image-worker.js:38 | The result is `None` exactly when no queued task has the id; otherwise it is the earliest queued task with that id. |
| Pool.WithoutId | image-worker.js:42 | A task is kept exactly when it was queued and its id differs; the queue never grows; the queue is unchanged when no task has the id. |
| Pool.WithoutIdSingleton | image-worker.js:42 | On a one-task queue the filter keeps the task exactly when its id differs. |
| Pool.WithoutIdAppend | image-worker.js:42 | Filtering a concatenation filters each part and keeps the parts in order; with the singleton case this fixes the result: kept tasks stay in queue order, every copy kept. |
| Pool.WorkerPool.constructor | image-worker.js:12-20 | A new pool has `numWorkers` workers, all idle, an empty queue, nothing posted and nothing resolved. |
| Pool.WorkerPool.Init | image-worker.js:22-26 | Workers `0 .. numWorkers-1` are created in order; the status map has exactly those keys, all idle. |
| Pool.WorkerPool.CreateWorker | image-worker.js:28-31 | The worker is appended to the list and marked idle; queue, outbox and resolutions are unchanged. |
| Pool.WorkerPool.ProcessNextTask | image-worker.js:55-66 | If a task waits and `w` is idle, the queue head goes to `w`, `w` becomes busy and one "process_image" for that task is posted to `w`; otherwise nothing changes. |
| Pool.WorkerPool.FindIdleWorker | image-worker.js:80-82 | The loop's result equals `FirstIdle` over the workers in creation order. |
| Pool.WorkerPool.FindTask | image-worker.js:38 | The loop's result equals `FirstWithId` over the queue. |
| Pool.WorkerPool.AddTask | image-worker.js:68-88 | With no idle worker the task joins the queue's tail and nothing else changes. Otherwise the queue was empty and the new task goes straight to the first idle worker, which becomes busy. Both cases keep "no task waits while a worker is idle". |
| Pool.WorkerPool.OnReady | image-worker.js:34-35 | "ready" is a dispatch attempt for its sender; under the pool's invariant it changes nothing. |
| Pool.WorkerPool.OnTaskComplete | image-worker.js:36-46 | The first queued task with the id, if any, is resolved with the result. Every task with that id leaves the queue. The sender becomes idle and, if tasks remain, is handed the head. The invariant is kept. |
| Pool.WorkerPool.OnMessage | image-worker.js:33-48 | "ready" and "task_complete" behave as above; any other message type changes nothing. |
| Pool.DispatchedTaskIsNeverResolved | image-worker.js:38-46 | In a fresh pool, a single added task is posted to worker 0. Its completion then resolves nothing and leaves the queue empty and worker 0 idle. |
| PoolWorker.Reply | pool-worker.js:24-48 | A reply is posted exactly for a "process_image" request; it is a "task_complete" with the request's task id. |
| PoolWorker.ReplyResultShape | pool-worker.js:9-17 | The reply's record names the request's image as input. On success it has output "resized_" + image, status "success" and the processing time. On failure it has a null output, status "failed" and the error message. |
| PoolWorker.Jobs | pool-worker.js:25 | The requests the handler answers: only "process_image" requests of the inbox, and every one of them. |
| PoolWorker.JobsAppend | pool-worker.js:24-25 | The jobs of a concatenated inbox are the jobs of each part, in order. |
| PoolWorker.JobsSingleton | pool-worker.js:25 | A single request is a job exactly when it is a "process_image". |
| PoolWorker.RepliesMatchJobs | pool-worker.js:24-49 | Over a whole inbox, the replies correspond one to one, in order, to the "process_image" requests, carrying each request's id and image. |
| PoolWorker.ReadyFirstAndOnce | pool-worker.js:21 | "ready" is the first message posted and is never posted again; the transcript has one message more than there are jobs. |
| PoolWorker.IgnoredRequest | pool-worker.js:25 | A request of any other type adds nothing to the transcript. |
| ShardWorker.IndexOf | worker.js:20 | The result is the first position where the pattern occurs, or `None` when it occurs nowhere. |
| ShardWorker.OutputNameShape | worker.js:20-27 | The output name is "resized_" followed by the input name, with the same length. Only the first "svg" becomes "jpg"; every other character is kept. |
| ShardWorker.ItemRecordShape | worker.js:29-63 | A record keeps its image as input. It is "failed" exactly when the call threw; it then has a null output and the error message. Otherwise it has the renamed output, no error and the processing time. |
| ShardWorker.Records | worker.js:39-65 | The record list after `k` iterations has `k` entries, the `i`-th being the record for image `i`. |
| ShardWorker.RunShard | worker.js:37-72 | The loop pushes one record per image in order. It posts one progress message per success, then a single final message with all records. |
| ShardWorker.RecordsOnePerImage | worker.js:43-65 | One record per image, in input order; a failure marks only its own record "failed" and does not stop later images. |
| ShardWorker.ProgressExactlyForSuccesses | worker.js:50-56 | Progress is posted after exactly the successful images. Each post names its image, its 1-based position and the total. Posts come in image order. |
| ShardWorker.OneFinalResult | worker.js:67-71 | Exactly one "result" message is posted; it is the last and carries all records. |
| Sharding.ImagesPerWorker | main.js:67 | The result is the ceiling of `n / numWorkers`: `numWorkers` shards of it cover `n`, and one less would not. |
| Sharding.SliceClips | main.js:75 | `slice` clips both bounds to the length. A start at or after the end yields the empty list. Otherwise the slice holds the items from `start` on, in order. |
| Sharding.OffsetIsProduct | main.js:73 | The offset of shard `i` is `i * imagesPerWorker`. |
| Sharding.PlanShards | main.js:66-77 | The loop produces exactly the shards `Shards(images, numWorkers)`: worker `i`'s slice for each `i` below the worker count, empty slices skipped, none at all for zero workers. |
| Sharding.ShardIsSlice | main.js:73-75 | Shard `i` is `slice(i * per, i * per + per)`: at most `per` items, the `k`-th being input item `i * per + k`. |
| Sharding.ShardsAreSlices | main.js:72-77 | At most `numWorkers` shards are used, all non-empty, and the `j`-th used shard is shard `j`. |
| Sharding.ShardsCoverInput | main.js:66-77 | Concatenating the shards in order gives back the whole input: no image is lost or duplicated. |
| Sharding.DemoSharding | main.js:66-77 | The six demo images of the list at the top of main.js, over three workers, give two images per worker and three shards of two. |
| Sharding.CollectResults | main.js:111-112 | Whatever the order in which shards finish, the collected list is the shard results concatenated in shard order. |
| Sharding.FlattenShardRecords | main.js:111-112 | Concatenating per-shard record lists equals the record list of the concatenated shards. |
| Sharding.ResultsInInputOrder | main.js:72-112 | The final list has one record per input image in input order, exactly what a single worker would produce for the whole list. |

## Left out

- The image library (sharp), file paths, the file system and the output directory are not modelled. Each image's fate is the given `Outcome`.
- `Math.random` and the timers are not modelled. The processing time is part of the given `Outcome`, already rounded.
- The pool's task ids (`Date.now() + Math.random()`) are not generated. Ids are opaque values chosen by the caller of `AddTask`, and their uniqueness is not assumed.
- The pool worker's `workerId` field (`process.threadId`) is not part of the result record.
- Pool.WorkerPool.constructor: always takes the worker count. The source's default, the machine's CPU count (`cpus().length`), is not modelled, because it is a property of the host.
- Starting and terminating threads (`new Worker`, `terminate`) is not modelled. Workers are numbered `0 .. numWorkers-1` in creation order rather than being thread objects.
- The pool's "error" listener and the shard workers' "error" and "exit" listeners are not modelled. Neither is promise rejection in `Promise.all`; only the path where every shard answers is modelled.
- The pool's `addTask` promise is modelled by its resolution: resolving appends to `resolved`. The reject callback is never called by the source and is not modelled.
- Real concurrency is not modelled. Each message callback runs to completion, one after another, as on the JavaScript event loop. The order in which shard results arrive is an input of `CollectResults`.
- PoolWorker.Replies: assumes requests to one pool worker are answered in arrival order. The handler is asynchronous, so two requests in flight could be answered out of order. The pool never has two requests in flight to one worker.
- Sharding.ImagesPerWorker: defined only for a positive worker count. With zero workers the source computes `Math.ceil(n / 0)`, which is `Infinity` for a non-empty list and not a number for an empty one; either way its loop then runs zero times, and `PlanShards` and `Shards` model that case as no shards.
- The console output (progress lines, timings, the final listing) and the single-worker demo's printing are not modelled. The single-worker run is `ShardWorker.RunShard` on the whole list.
- The `processWithWorkerPool` and `main` drivers are not modelled beyond the scenario in `Pool.DispatchedTaskIsNeverResolved`.
