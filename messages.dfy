/** Values shared by the three worker scripts and the pool: the resize
    configuration, the outcome of the external image call, the per-image
    result record and the messages that cross a thread boundary. */
module Messages {

  datatype Option<T> = None | Some(value: T)

  /** `{ width, height, quality }`: passed unchanged with every job. */
  datatype Config = Config(width: int, height: int, quality: int)

  /** What the external image call did for one image: it returned, with the
      processing time it reports (already rounded; drawn at random, and in
      the shard worker unrelated to how long the call took), or it threw an
      error whose `message` is kept. */
  datatype Outcome = Done(processingTime: int) | Threw(message: string)

  datatype ResultStatus = Success | Failed

  /** The record built for one image. A success carries `output` and
      `processingTime` and no `error`; a failure carries `error` and a null
      `output`. */
  datatype ImageResult = ImageResult(
    input: string,
    output: Option<string>,
    processingTime: Option<int>,
    status: ResultStatus,
    error: Option<string>)

  /** The record both worker scripts push when the image call throws. */
  function FailedRecord(image: string, message: string): ImageResult
  {
    ImageResult(image, None, None, Failed, Some(message))
  }

  /** Task ids are opaque values chosen by the caller of the pool. */
  type TaskId = int

  /** Messages the pool posts to one of its workers. */
  datatype ToWorker =
    | ProcessImage(taskId: TaskId, image: string, config: Config)
    | OtherRequest(kind: string)

  /** Messages a pool worker posts back. */
  datatype FromWorker =
    | Ready
    | TaskComplete(taskId: TaskId, result: ImageResult)
    | OtherReply(kind: string)
}
