/** The job queue: jobs linked front to rear through `prev`, refining a
    sequence, and the flag of the binary semaphore it posts to. */
module JobQueue {
  import opened Memory

  // What a pull leaves of a queue.
  function Pulled<T>(q: seq<T>): (r: seq<T>)
    ensures q != [] ==> q == [q[0]] + r
  {
    if q == [] then [] else q[1..]
  }

  class Job {
    var prev: Job?
    const task: nat

    constructor (t: nat)
      ensures prev == null && task == t
    {
      prev, task := null, t;
    }
  }

  function JobSet(js: seq<Job>): set<object> {
    set j | j in js
  }

  lemma FrontApart(q: seq<Job>)
    requires q != [] && forall i, j | 0 <= i < j < |q| :: q[i] != q[j]
    ensures JobSet(q) == {q[0]} + JobSet(q[1..]) && q[0] !in JobSet(q[1..])
  {
    assert q == [q[0]] + q[1..];
  }

  class Semaphore {
    var v: int

    // `bsem_init`
    constructor ()
      ensures v == 0
    {
      v := 0;
    }

    method Post()
      modifies this
      ensures v == 1
    {
      v := 1;
    }

    method Reset()
      modifies this
      ensures v == 0
    {
      v := 0;
    }
  }

  class Queue {
    var front: Job?
    var rear: Job?
    var len: int
    const hasJobs: Semaphore
    ghost var jobs: seq<Job>

    ghost predicate Valid()
      reads this, jobs
    {
      && len == |jobs|
      && (jobs == [] ==> front == null && rear == null)
      && (jobs != [] ==> front == jobs[0] && rear == jobs[|jobs| - 1] && rear.prev == null)
      && (forall i {:trigger jobs[i]} | 0 <= i < |jobs| - 1 :: jobs[i].prev == jobs[i + 1])
      && (forall i, j | 0 <= i < j < |jobs| :: jobs[i] != jobs[j])
    }

    // `jobqueue_init`
    constructor ()
      ensures Valid() && jobs == [] && fresh(hasJobs) && hasJobs.v == 0
    {
      front, rear, len, jobs := null, null, 0, [];
      hasJobs := new Semaphore();
    }

    // `jobqueue_push`: the new job comes last, and the semaphore is posted.
    method Push(newjob: Job)
      requires Valid() && newjob !in jobs
      modifies this`front, this`rear, this`len, this`jobs, newjob`prev,
        if jobs == [] then {} else {jobs[|jobs| - 1]}, hasJobs
      ensures Valid() && jobs == old(jobs) + [newjob] && hasJobs.v == 1
    {
      newjob.prev := null;
      if len == 0 {
        front, rear := newjob, newjob;
      } else {
        rear.prev := newjob;
        rear := newjob;
      }
      len, jobs := len + 1, jobs + [newjob];
      hasJobs.Post();
    }

    // `jobqueue_pull`: the first job, or null; posted again if others remain.
    method Pull() returns (job: Job?)
      requires Valid()
      modifies this`front, this`rear, this`len, this`jobs, hasJobs
      ensures Valid() && jobs == Pulled(old(jobs))
      ensures job == if old(jobs) == [] then null else old(jobs)[0]
      ensures hasJobs.v == if |old(jobs)| > 1 then 1 else old(hasJobs.v)
    {
      job := front;
      if len == 0 {
      } else if len == 1 {
        front, rear, len, jobs := null, null, 0, [];
      } else {
        front, len, jobs := job.prev, len - 1, jobs[1..];
        hasJobs.Post();
      }
    }

    // One job less: pulled, and freed once it is no longer linked.
    method FreeFront(mem: Heap)
      requires Valid() && jobs != [] && JobSet(jobs) <= mem.live
      modifies this`front, this`rear, this`len, this`jobs, hasJobs, mem, jobs[0]
      ensures Valid() && jobs == old(jobs)[1..]
      ensures JobSet(jobs) < JobSet(old(jobs)) && JobSet(jobs) <= mem.live
      ensures mem.live - JobSet(jobs) == old(mem.live) - JobSet(old(jobs))
    {
      FrontApart(jobs);
      var job := Pull();
      mem.Free(job);
    }

    // `jobqueue_clear`: every job left is freed once, and nothing else.
    method Clear(mem: Heap)
      requires Valid() && JobSet(jobs) <= mem.live
      modifies this`front, this`rear, this`len, this`jobs, hasJobs, mem, JobSet(jobs)
      ensures Valid() && jobs == [] && hasJobs.v == 0
      ensures mem.live == old(mem.live) - JobSet(old(jobs))
    {
      ghost var gone := JobSet(jobs);
      while len != 0
        invariant Valid() && JobSet(jobs) <= mem.live && JobSet(jobs) <= gone
        invariant mem.live - JobSet(jobs) == old(mem.live) - gone
        decreases |jobs|
      {
        FreeFront(mem);
      }
      front, rear := null, null;
      hasJobs.Reset();
      len := 0;
    }
  }
}
