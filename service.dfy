// The job service: the in-memory job list and ID counter, updated in place
// by the service's operations.

module JobService {
  import opened JobModel
  import opened Registry

  class Service {
    /** The authoritative job list, in creation (append) order. */
    var jobs: seq<Job>
    /** The ID the next created job receives. */
    var nextID: int
    /** The job list as the last successful snapshot write left it. */
    ghost var saved: seq<Job>

    /** Holds after start-up from any loaded list and after every operation:
        the counter is positive and above every ID in the list. */
    ghost predicate Valid()
      reads this
    {
      1 <= nextID && IdsBelow(jobs, nextID)
    }

    /** The registry invariant: on top of Valid, no two jobs share an ID.
        It holds from start-up when the loaded IDs are distinct. */
    ghost predicate Consistent()
      reads this
    {
      Valid() && IdsDistinct(jobs)
    }

    /** Start-up from an already loaded snapshot: the counter becomes one more
        than the largest loaded ID, or 1 when no loaded ID is positive. */
    constructor (loaded: seq<Job>)
      ensures Valid()
      ensures jobs == loaded && saved == loaded
      ensures nextID == MaxID(loaded) + 1
      ensures IdsDistinct(loaded) ==> Consistent()
    {
      var maxID := 0;
      for i := 0 to |loaded|
        invariant maxID == MaxID(loaded[..i])
      {
        assert loaded[..i + 1][..i] == loaded[..i];
        if loaded[i].id > maxID {
          maxID := loaded[i].id;
        }
      }
      assert loaded[..|loaded|] == loaded;
      jobs := loaded;
      nextID := maxID + 1;
      saved := loaded;
    }

    /** The whole current list, as it is. */
    method GetAllJobs() returns (all: seq<Job>)
      ensures all == jobs
    {
      all := jobs;
    }

    /** Linear search for the first job with ID `id`. */
    method GetJobByID(id: int) returns (r: Result<Job>)
      ensures r == Lookup(jobs, id)
      ensures r.Ok? ==> r.value.id == id && r.value in jobs
      ensures r.Err? <==> forall k :: 0 <= k < |jobs| ==> jobs[k].id != id
    {
      var i := 0;
      while i < |jobs|
        invariant 0 <= i <= |jobs|
        invariant forall k :: 0 <= k < i ==> jobs[k].id != id
      {
        if jobs[i].id == id {
          return Ok(jobs[i]);
        }
        i := i + 1;
      }
      return Err(JobNotFound);
    }

    /** Appends a new queued job under the current counter and advances the
        counter. `now` is the clock reading; `saveOk` is the outcome of the
        snapshot write, which happens after the in-memory change and does not
        undo it when it fails. */
    method CreateJob(title: string, description: string, now: int, saveOk: bool) returns (r: Result<Job>)
      requires Valid()
      modifies this
      ensures Valid()
      ensures nextID == old(nextID) + 1
      ensures jobs == old(jobs) + [Job(old(nextID), title, description, Queued, now, now, 0, 0)]
      ensures saveOk ==> saved == jobs && r == Ok(jobs[|jobs| - 1])
      ensures !saveOk ==> saved == old(saved) && r == Err(SaveFailed)
      ensures old(Consistent()) ==> Consistent()
      ensures old(IdsIncreasing(jobs)) ==> IdsIncreasing(jobs)
    {
      var job := Job(nextID, title, description, Queued, now, now, 0, 0);
      jobs := jobs + [job];
      nextID := nextID + 1;
      if !saveOk {
        return Err(SaveFailed);
      }
      saved := jobs;
      return Ok(job);
    }

    /** Sets the status of the first job with ID `id` to `newStatus`, whatever
        its current status, and stamps it with `now`. */
    method UpdateJobStatus(id: int, newStatus: string, now: int, saveOk: bool) returns (r: Result<Job>)
      requires Valid()
      modifies this
      ensures Valid() && nextID == old(nextID)
      ensures IndexOf(old(jobs), id).None? ==>
                jobs == old(jobs) && saved == old(saved) && r == Err(JobNotFound)
      ensures IndexOf(old(jobs), id).Some? ==>
                var i := IndexOf(old(jobs), id).value;
                && jobs == WithStatus(old(jobs), i, newStatus, now)
                && (saveOk ==> saved == jobs && r == Ok(jobs[i]))
                && (!saveOk ==> saved == old(saved) && r == Err(SaveFailed))
      ensures old(Consistent()) ==> Consistent()
      ensures old(IdsIncreasing(jobs)) ==> IdsIncreasing(jobs)
    {
      var i := 0;
      while i < |jobs|
        invariant 0 <= i <= |jobs|
        invariant jobs == old(jobs) && saved == old(saved) && nextID == old(nextID)
        invariant forall k :: 0 <= k < i ==> jobs[k].id != id
      {
        if jobs[i].id == id {
          jobs := WithStatus(jobs, i, newStatus, now);
          if !saveOk {
            return Err(SaveFailed);
          }
          saved := jobs;
          return Ok(jobs[i]);
        }
        i := i + 1;
      }
      return Err(JobNotFound);
    }

    /** One step of the background worker, taken as a single atomic step: the
        first queued job is marked "running" at `startedAt` and saved, then
        marked "done" at `finishedAt` and saved again. Both save outcomes are
        ignored, so they only decide what the snapshot holds. */
    method ProcessNextJob(startedAt: int, finishedAt: int, firstSaveOk: bool, secondSaveOk: bool)
      requires Valid()
      modifies this
      ensures Valid() && nextID == old(nextID)
      ensures jobs == ProcessNext(old(jobs), finishedAt)
      ensures FirstQueued(old(jobs)).None? ==> saved == old(saved)
      ensures FirstQueued(old(jobs)).Some? ==>
                var i := FirstQueued(old(jobs)).value;
                saved == if secondSaveOk then jobs
                         else if firstSaveOk then WithStatus(old(jobs), i, Running, startedAt)
                         else old(saved)
      ensures old(Consistent()) ==> Consistent()
      ensures old(IdsIncreasing(jobs)) ==> IdsIncreasing(jobs)
    {
      var i := 0;
      while i < |jobs|
        invariant 0 <= i <= |jobs|
        invariant jobs == old(jobs) && saved == old(saved) && nextID == old(nextID)
        invariant forall k :: 0 <= k < i ==> jobs[k].status != Queued
      {
        if jobs[i].status == Queued {
          jobs := WithStatus(jobs, i, Running, startedAt);
          if firstSaveOk {
            saved := jobs;
          }
          jobs := WithStatus(jobs, i, Done, finishedAt);
          if secondSaveOk {
            saved := jobs;
          }
          assert jobs == WithStatus(old(jobs), i, Done, finishedAt);
          return;
        }
        i := i + 1;
      }
    }
  }
}
