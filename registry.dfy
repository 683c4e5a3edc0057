// Specification functions of the in-memory job registry: what the service's
// loops compute, stated on the job list as a value, and the lemmas that
// relate the registry's operations to each other.

module Registry {
  import opened JobModel

  // ---------------------------------------------------------------------------
  // Next-ID computation at start-up

  /** The largest ID in `jobs`, or 0 when no ID is larger than 0: the value the
      start-up loop accumulates from an initial 0. */
  function MaxID(jobs: seq<Job>): (m: int)
    ensures m >= 0
    ensures forall k :: 0 <= k < |jobs| ==> jobs[k].id <= m
    ensures m == 0 || exists k :: 0 <= k < |jobs| && jobs[k].id == m
  {
    if jobs == [] then 0
    else
      var last := jobs[|jobs| - 1];
      var m := MaxID(jobs[..|jobs| - 1]);
      assert forall k :: 0 <= k < |jobs| - 1 ==> jobs[..|jobs| - 1][k] == jobs[k];
      if last.id > m then last.id else m
  }

  // ---------------------------------------------------------------------------
  // The registry invariant

  /** Every ID in the list is below the next ID to be handed out. */
  ghost predicate IdsBelow(jobs: seq<Job>, next: int) {
    forall k :: 0 <= k < |jobs| ==> jobs[k].id < next
  }

  /** No two jobs in the list share an ID. */
  ghost predicate IdsDistinct(jobs: seq<Job>) {
    forall k, l :: 0 <= k < l < |jobs| ==> jobs[k].id != jobs[l].id
  }

  /** IDs grow strictly along the list, as they do when every job is appended
      with a fresh, larger ID. */
  ghost predicate IdsIncreasing(jobs: seq<Job>) {
    forall k, l :: 0 <= k < l < |jobs| ==> jobs[k].id < jobs[l].id
  }

  // ---------------------------------------------------------------------------
  // Lookup by ID

  /** The index of the first job whose ID is `id`, if there is one. */
  function IndexOf(jobs: seq<Job>, id: int): (r: Option<nat>)
    ensures r.Some? ==> r.value < |jobs| && jobs[r.value].id == id
    ensures r.Some? ==> forall k :: 0 <= k < r.value ==> jobs[k].id != id
    ensures r.None? <==> forall k :: 0 <= k < |jobs| ==> jobs[k].id != id
  {
    if jobs == [] then None
    else if jobs[0].id == id then Some(0)
    else
      match IndexOf(jobs[1..], id)
      case None => None
      case Some(k) => Some(k + 1)
  }

  /** The answer to a lookup by ID: the first job with that ID, or "job not
      found". */
  function Lookup(jobs: seq<Job>, id: int): (r: Result<Job>)
    ensures r.Ok? <==> exists k :: 0 <= k < |jobs| && jobs[k].id == id
    ensures r.Ok? ==> r.value.id == id
    ensures r.Ok? ==> exists k :: 0 <= k < |jobs| && jobs[k] == r.value &&
                                  forall l :: 0 <= l < k ==> jobs[l].id != id
    ensures r.Err? ==> r.error == JobNotFound
  {
    match IndexOf(jobs, id)
    case Some(k) => Ok(jobs[k])
    case None => Err(JobNotFound)
  }

  // ---------------------------------------------------------------------------
  // Status updates in place

  /** The list with job `i` given status `status`, stamped at `now`. */
  function WithStatus(jobs: seq<Job>, i: nat, status: string, now: int): (r: seq<Job>)
    requires i < |jobs|
    ensures |r| == |jobs|
    ensures r[i].id == jobs[i].id && r[i].status == status && r[i].updatedAt == now
    ensures r[i].title == jobs[i].title && r[i].description == jobs[i].description
    ensures r[i].createdAt == jobs[i].createdAt
    ensures r[i].priority == jobs[i].priority && r[i].retries == jobs[i].retries
    ensures forall k :: 0 <= k < |jobs| && k != i ==> r[k] == jobs[k]
  {
    jobs[i := jobs[i].(status := status, updatedAt := now)]
  }

  /** A status update moves no job and renames none, so every lookup by ID
      finds the same position afterwards. It follows from the contracts of
      `IndexOf` and `WithStatus`; automatic induction is switched off because
      those contracts suffice and an induction hypothesis only slows the proof. */
  lemma {:induction false} IndexOfAfterUpdate(jobs: seq<Job>, i: nat, status: string, now: int, id: int)
    requires i < |jobs|
    ensures IndexOf(WithStatus(jobs, i, status, now), id) == IndexOf(jobs, id)
  {
  }

  /** Updating the status of the job found for `id` and then looking `id` up
      again returns the updated job; every other lookup gives the job it gave
      before, apart from the new status if it is the same job. */
  lemma UpdateThenLookup(jobs: seq<Job>, id: int, i: nat, status: string, now: int, other: int)
    requires IndexOf(jobs, id) == Some(i)
    ensures Lookup(WithStatus(jobs, i, status, now), id) == Ok(jobs[i].(status := status, updatedAt := now))
    ensures IndexOf(jobs, other) != Some(i) ==>
              Lookup(WithStatus(jobs, i, status, now), other) == Lookup(jobs, other)
  {
    IndexOfAfterUpdate(jobs, i, status, now, id);
    IndexOfAfterUpdate(jobs, i, status, now, other);
  }

  // ---------------------------------------------------------------------------
  // Appending a new job

  /** Appending a job whose ID is above every existing ID makes it reachable
      by a lookup of that ID and leaves every other lookup as it was. */
  lemma {:induction false} AppendThenLookup(jobs: seq<Job>, job: Job, id: int)
    requires IdsBelow(jobs, job.id)
    ensures Lookup(jobs + [job], job.id) == Ok(job)
    ensures id != job.id ==> Lookup(jobs + [job], id) == Lookup(jobs, id)
  {
    AppendIndexOf(jobs, job, job.id);
    AppendIndexOf(jobs, job, id);
  }

  lemma {:induction false} AppendIndexOf(jobs: seq<Job>, job: Job, id: int)
    ensures IndexOf(jobs + [job], id) ==
            if IndexOf(jobs, id).Some? then IndexOf(jobs, id)
            else if job.id == id then Some(|jobs|)
            else None
  {
    if jobs != [] && jobs[0].id != id {
      assert (jobs + [job])[1..] == jobs[1..] + [job];
      AppendIndexOf(jobs[1..], job, id);
    }
  }

  // ---------------------------------------------------------------------------
  // The worker's step

  /** The index of the first job whose status is "queued", if there is one. */
  function FirstQueued(jobs: seq<Job>): (r: Option<nat>)
    ensures r.Some? ==> r.value < |jobs| && jobs[r.value].status == Queued
    ensures r.Some? ==> forall k :: 0 <= k < r.value ==> jobs[k].status != Queued
    ensures r.None? <==> forall k :: 0 <= k < |jobs| ==> jobs[k].status != Queued
  {
    if jobs == [] then None
    else if jobs[0].status == Queued then Some(0)
    else
      match FirstQueued(jobs[1..])
      case None => None
      case Some(k) => Some(k + 1)
  }

  /** The job list after one worker step that finishes at `now`: the first
      queued job ends "done". */
  function ProcessNext(jobs: seq<Job>, now: int): (r: seq<Job>)
    ensures |r| == |jobs|
    ensures forall k :: 0 <= k < |jobs| ==> r[k].id == jobs[k].id
  {
    match FirstQueued(jobs)
    case None => jobs
    case Some(i) => WithStatus(jobs, i, Done, now)
  }

  /** One worker step changes nothing when no job is queued; otherwise it
      changes exactly one job, the queued job with the lowest index, which
      ends "done" under the same ID. */
  lemma ProcessNextEffect(jobs: seq<Job>, now: int)
    ensures var r := ProcessNext(jobs, now);
            && |r| == |jobs|
            && (forall k :: 0 <= k < |jobs| ==> r[k].id == jobs[k].id)
            && ((forall k :: 0 <= k < |jobs| ==> jobs[k].status != Queued) ==> r == jobs)
            && ((exists k :: 0 <= k < |jobs| && jobs[k].status == Queued) ==>
                  exists k :: 0 <= k < |jobs| && r[k] != jobs[k])
            && forall k :: 0 <= k < |jobs| && r[k] != jobs[k] ==>
                  && jobs[k].status == Queued
                  && r[k] == jobs[k].(status := Done, updatedAt := now)
                  && (forall l :: 0 <= l < k ==> jobs[l].status != Queued)
  {
  }

  /** The number of jobs whose status is `status`. */
  function CountStatus(jobs: seq<Job>, status: string): (n: nat)
    ensures n <= |jobs|
  {
    if jobs == [] then 0
    else (if jobs[0].status == status then 1 else 0) + CountStatus(jobs[1..], status)
  }

  /** The count is zero exactly when no job has that status. */
  lemma {:induction false} CountZero(jobs: seq<Job>, status: string)
    ensures CountStatus(jobs, status) == 0 <==> forall k :: 0 <= k < |jobs| ==> jobs[k].status != status
  {
    if jobs != [] {
      CountZero(jobs[1..], status);
      assert forall k :: 1 <= k < |jobs| ==> jobs[1..][k - 1] == jobs[k];
    }
  }

  /** Changing one job's status moves that job from one count to another and
      leaves every other count alone. */
  lemma {:induction false} CountAfterUpdate(jobs: seq<Job>, i: nat, newStatus: string, now: int, status: string)
    requires i < |jobs|
    ensures CountStatus(WithStatus(jobs, i, newStatus, now), status) ==
            CountStatus(jobs, status)
            - (if jobs[i].status == status then 1 else 0)
            + (if newStatus == status then 1 else 0)
  {
    var updated := WithStatus(jobs, i, newStatus, now);
    if i == 0 {
      assert updated[1..] == jobs[1..];
    } else {
      CountAfterUpdate(jobs[1..], i - 1, newStatus, now, status);
      assert updated[1..] == WithStatus(jobs[1..], i - 1, newStatus, now);
    }
  }

  /** A worker step that finds a queued job takes exactly one job out of
      "queued" and puts exactly one more into "done". */
  lemma {:induction false} ProcessNextCounts(jobs: seq<Job>, now: int)
    requires FirstQueued(jobs).Some?
    ensures CountStatus(ProcessNext(jobs, now), Queued) == CountStatus(jobs, Queued) - 1
    ensures CountStatus(ProcessNext(jobs, now), Done) == CountStatus(jobs, Done) + 1
  {
    var i := FirstQueued(jobs).value;
    assert Done[0] != Queued[0];
    CountAfterUpdate(jobs, i, Done, now, Queued);
    CountAfterUpdate(jobs, i, Done, now, Done);
  }

  /** `n` worker steps in a row, each finishing at `now`. */
  function ProcessTimes(jobs: seq<Job>, n: nat, now: int): seq<Job>
    decreases n
  {
    if n == 0 then jobs else ProcessTimes(ProcessNext(jobs, now), n - 1, now)
  }

  /** `after` is `before` with every queued job marked "done": same length,
      same IDs, and every other status kept. */
  ghost predicate QueuedMarkedDone(before: seq<Job>, after: seq<Job>) {
    && |after| == |before|
    && forall k :: 0 <= k < |before| ==>
         && after[k].id == before[k].id
         && after[k].status == (if before[k].status == Queued then Done else before[k].status)
  }

  /** Marking the first queued job "done" and then every remaining queued job
      marks every queued job of the original list. */
  lemma MarkDoneStep(jobs: seq<Job>, i: nat, now: int, r: seq<Job>)
    requires i < |jobs| && jobs[i].status == Queued
    requires QueuedMarkedDone(WithStatus(jobs, i, Done, now), r)
    ensures QueuedMarkedDone(jobs, r)
  {
  }

  /** As many worker steps as there are queued jobs leave no job queued: each
      job that was queued is "done", under the same ID, and every other job
      keeps its status. */
  lemma {:induction false} ProcessAllQueued(jobs: seq<Job>, n: nat, now: int)
    requires n >= CountStatus(jobs, Queued)
    decreases n, 1
    ensures CountStatus(ProcessTimes(jobs, n, now), Queued) == 0
    ensures QueuedMarkedDone(jobs, ProcessTimes(jobs, n, now))
  {
    if n == 0 {
      CountZero(jobs, Queued);
    } else if FirstQueued(jobs).None? {
      CountZero(jobs, Queued);
      ProcessAllQueued(jobs, n - 1, now);
    } else {
      ProcessQueuedThenRest(jobs, n, now);
    }
  }

  /** The inductive step of ProcessAllQueued: the first step marks one queued
      job "done" and the remaining steps mark the rest. */
  lemma {:induction false} ProcessQueuedThenRest(jobs: seq<Job>, n: nat, now: int)
    requires n >= CountStatus(jobs, Queued)
    requires n > 0 && FirstQueued(jobs).Some?
    decreases n, 0
    ensures CountStatus(ProcessTimes(jobs, n, now), Queued) == 0
    ensures QueuedMarkedDone(jobs, ProcessTimes(jobs, n, now))
  {
    var i := FirstQueued(jobs).value;
    var next := WithStatus(jobs, i, Done, now);
    assert ProcessNext(jobs, now) == next;
    assert CountStatus(next, Queued) < n by {
      ProcessNextCounts(jobs, now);
    }
    ProcessAllQueued(next, n - 1, now);
    MarkDoneStep(jobs, i, now, ProcessTimes(next, n - 1, now));
  }
}
