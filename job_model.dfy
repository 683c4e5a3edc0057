// The job record and the error results of the job registry.

module JobModel {

  /** The status strings the registry itself writes; any other string may be
      stored through an administrative status update. */
  const Queued: string := "queued"
  const Running: string := "running"
  const Done: string := "done"

  /** One unit of work. Timestamps are abstract clock readings supplied by the
      caller; `priority` uses 1 for the most urgent and 5 for the least. */
  datatype Job = Job(
    id: int,
    title: string,
    description: string,
    status: string,
    createdAt: int,
    updatedAt: int,
    priority: int,
    retries: int)

  /** Why an operation of the registry reports failure. */
  datatype Error =
    | JobNotFound   // no job carries the requested ID
    | SaveFailed    // writing the snapshot of the job list failed

  datatype Result<T> = Ok(value: T) | Err(error: Error)

  datatype Option<T> = None | Some(value: T)
}
