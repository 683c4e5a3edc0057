# JobScope job registry in Dafny

JobScope is a small job scheduler behind an HTTP API. Its core is the
in-memory job registry, `Service` in `job/service.go`. The registry holds the
list of jobs and the counter for the next job ID. Every change to the list is
followed by a write of the whole list to a snapshot file. A background worker
repeatedly takes the first queued job and runs it to "done". The HTTP layer
adds one piece of logic: a requested priority is clamped to [1,5].

This project models that core:

- `job_model.dfy`, module `JobModel`: the `Job` record of `job/model.go`, the
  three status strings the service writes, and the `Result`/`Error` types for
  the "job not found" and failed-save outcomes.
- `registry.dfy`, module `Registry`: specification functions on the job list
  as a value (largest ID, lookup by ID, first queued job, one worker step,
  status counts), the registry invariant (IDs distinct and below the
  counter), and lemmas relating the operations to each other.
- `service.dfy`, module `JobService`: class `Service` with the fields `jobs`
  and `nextID`, updated in place by methods whose loops mirror the Go loops.
  The constructor and the search and update methods are proved against the
  functions of `Registry`. `CreateJob` states its new list outright. Every
  mutating method keeps the registry invariants of `Registry`. A ghost field
  `saved` follows the last snapshot written by `SaveJobs`.
- `handler.dfy`, module `Handler`: the priority clamp.

Things that come from outside the process are parameters:

- The loaded list is a parameter of the constructor.
- The clock readings (`time.Now()`) are `now`, `startedAt` and `finishedAt`.
- The outcome of each snapshot write is a boolean.

A failed write leaves `saved` at its previous value. The in-memory change
stays in place either way, as in the source.

### Where the code and its design disagree

The model follows the code in each case.

- Created jobs have priority 0, not the clamped priority. The handler calls
  `CreateJob(title, desc, priority)` (`job/handler.go:38`). The service's
  `CreateJob` takes only a title and a description (`job/service.go:56`). It
  never sets `Priority` or `Retries`, so both keep Go's zero value 0.
  `Service.CreateJob` is modelled as the service writes it, so the clamp's
  result never reaches a stored job.
- `job/handler.go:71` calls `GetStats`, which the service does not define.
- `main.go:103` calls `service.StopWorker()`, which the service does not define
  either.
- The service has no check on status transitions. There is no `enqueued`
  state, no priority-ordered dispatch and no retry policy. The worker takes
  jobs in list order (creation order), one per step. It moves a job from
  "queued" to "running" to "done".

## Model

| member | source | states |
|---|---|---|
| Registry.MaxID | job/service.go:25-30 | the accumulated maximum is at least 0 and at least every ID in the list, and is either 0 or the ID of some job in the list |
| JobService.Service.constructor | job/service.go:24-35 | start-up keeps the loaded list as the job list and the snapshot, sets the counter to MaxID + 1 (so it is at least 1 and above every loaded ID), and establishes the registry invariant when the loaded IDs are distinct |
| JobService.Service.GetAllJobs | job/service.go:38-42 | returns the current job list unchanged and changes nothing |
| Registry.IndexOf | job/service.go:47-52 | the search result is the index of a job with the requested ID with no such job before it, and is absent exactly when no job has that ID |
| Registry.Lookup | job/service.go:47-53 | a lookup succeeds exactly when some job has the ID, and then returns the first such job; otherwise it fails with "job not found" |
| JobService.Service.GetJobByID | job/service.go:44-54 | the linear search returns the first job with the ID, or "job not found" exactly when no job has it, and changes nothing |
| JobService.Service.CreateJob | job/service.go:56-75 | appends exactly one job at the end with the old counter as ID, status "queued", both timestamps `now`, priority 0 and retries 0; the counter grows by exactly 1 and earlier jobs are unchanged; the append and the increment stay when the save fails, which reports an error; on success the snapshot equals the list and the created job is returned; keeps the counter above every ID, keeps IDs distinct and keeps them increasing |
| Registry.AppendIndexOf | job/service.go:68 | after an append, the search finds the old position of a job that was already there, the new job's position if only it has the ID, and nothing otherwise |
| Registry.AppendThenLookup | job/service.go:60-69 | once a job with an ID above every existing ID is appended, a lookup of its ID returns it and every other lookup is unchanged |
| JobService.Service.UpdateJobStatus | job/service.go:77-93 | for an unknown ID it changes nothing and returns "job not found"; otherwise only the first job with the ID changes, to the new status (whatever the old one was) stamped `now`; on success the snapshot equals the list and the updated element is returned, and on a failed save the change stays and an error is returned; the counter, the invariant and the ID order are kept |
| Registry.WithStatus | job/service.go:83-84 | the in-place status update: the list keeps its length, the updated job keeps its ID, title, description, creation stamp, priority and retries and gets the new status and update stamp, and every other job is unchanged |
| Registry.IndexOfAfterUpdate | job/service.go:83-84 | a status update leaves the position found by every lookup by ID unchanged |
| Registry.UpdateThenLookup | job/service.go:81-89 | looking up the ID again after an update returns the updated job, and a lookup of an ID that found a different job returns what it returned before |
| Registry.FirstQueued | job/service.go:108-109 | the worker's scan finds the lowest index whose status is "queued", and finds nothing exactly when no job is queued |
| Registry.ProcessNext | job/service.go:108-127 | the worker step as a function of the list: it keeps the length and every job's ID; what it changes is stated by ProcessNextEffect |
| Registry.ProcessNextEffect | job/service.go:108-127 | a worker step changes nothing when no job is queued; otherwise it changes exactly one job, the queued job with the lowest index, which ends "done" stamped with the finishing time under the same ID |
| JobService.Service.ProcessNextJob | job/service.go:104-128 | the list after the step is the one ProcessNextEffect describes; the snapshot is the final list if the second save succeeds, the list with the job "running" if only the first succeeds, and the old snapshot otherwise; the counter, the invariant and the ID order are kept |
| Registry.CountAfterUpdate | job/service.go:83-84 | a status change moves exactly that one job from the count of its old status to the count of its new status, and leaves every other status count alone |
| Registry.ProcessNextCounts | job/service.go:120-125 | a worker step that finds a queued job lowers the number of queued jobs by exactly 1 and raises the number of done jobs by exactly 1, so at most one job is processed per call |
| Registry.ProcessAllQueued | job/service.go:95-102 | as many consecutive worker steps as there are queued jobs leave no job queued, and every job that was queued is "done" under the same ID while every other job keeps its status |
| Handler.ClampPriority | job/handler.go:33-36 | the result is always in [1,5]; a priority in 1..5 is kept; a priority below 1 or above 5 becomes 3 |

## Left out

- Store I/O in `job/store.go`: opening and reading the file, JSON encoding and decoding, and the package-level mutex. The loaded list is a constructor parameter. A load error, which makes `NewService` fail, is not modelled.
- Snapshot write outcome: only success or failure is modelled. A failed write leaves the previous snapshot. A truncated or partially written file is not modelled.
- Concurrency: the mutex, the worker goroutine and its 3-second poll in `StartWorker`, and the unlock, 5-second sleep and relock inside `processNextJob`. A worker step is one atomic step. `ProcessAllQueued` covers repeated steps without their timing. So the race is not modelled where a concurrent status update of the job being processed, made during the sleep, is overwritten by "done". A job appended during the sleep is not affected, since only the processed index is written after the relock.
- Logging: the two `fmt.Printf` lines of the worker.
- Aliasing: `GetAllJobs` returns the service's own slice (`job/service.go:41`), and `UpdateJobStatus` returns a pointer into it (`job/service.go:89`). A caller holding either sees later in-place updates of those jobs until an append moves the list to a new backing array (`job/service.go:68`), and none after that. The model returns values.
- JobService.Service.CreateJob: does not model the 64-bit wrap-around of `nextID++`. It is reached after 2^63 - 1 creations, or after a single creation when a loaded ID is 2^63 - 2, since loaded IDs come from an arbitrary file. From then on new IDs are negative and below the existing ones, so in Go the counter and ordering invariants stop holding. Go's two `time.Now()` calls for the created and updated stamps are one reading `now`.
- JobService.Service.constructor: does not model the overflow of `maxID + 1` when a loaded ID is the largest 64-bit integer.
- HTTP plumbing in `job/handler.go` and all of `main.go`: routing, JSON request and response bodies, `strconv.Atoi` ID parsing, status codes, the login check, tokens, signals and server shutdown.
- `GetStats`: the handler calls it but it is never defined, so it has nothing to model.
- `StopWorker`: `main.go` calls it at shutdown but it is never defined, so it has nothing to model.
- Behaviour the code does not have: priority-ordered dispatch, a bounded work queue, a worker pool, timeouts, and retry counting with a cap. `Retries` is never written.
