/** The pool as an object: its fields, the linked queue and the semaphore, each
    changed by the stretches of code that run under one lock. A ghost state
    follows every such stretch by the steps it amounts to. */
module PoolObject {
  import opened JobQueue
  import opened ThreadPool
  import opened PoolInvariants
  import opened PoolSafety
  import opened PoolShutdown

  function Tasks(js: seq<Job>): (ns: seq<nat>)
    ensures |ns| == |js| && forall k | 0 <= k < |js| :: ns[k] == js[k].task
  {
    seq(|js|, k requires 0 <= k < |js| => js[k].task)
  }

  lemma TasksPulled(js: seq<Job>)
    ensures Tasks(Pulled(js)) == Pulled(Tasks(js)) && (|js| > 1 <==> |Tasks(js)| > 1)
  {
  }

  // What the two steps of a pull come to.
  lemma PullSteps(s: State, i: nat, wake: Wake)
    requires Follows(s, [Take(i), Release(i, wake)])
    ensures var u := Outcome(s, [Take(i), Release(i, wake)]);
            && u.queue == Pulled(s.queue) && (u.flag <==> s.flag || |s.queue| > 1)
            && u.working == s.working && u.alive == s.alive && u.keepalive == s.keepalive
            && i < |u.workers| && u.workers[i] == Running(Front(s.queue))
  {
    TwoSteps(s, Take(i), Release(i, wake));
  }

  lemma ClearSteps(s: State)
    requires Follows(s, [ClearOne])
    ensures var u := Outcome(s, [ClearOne]);
            && u.queue == Pulled(s.queue) && (u.flag <==> s.flag || |s.queue| > 1)
            && u.working == s.working && u.alive == s.alive && u.keepalive == s.keepalive
  {
    OneStep(s, ClearOne);
  }

  // A look at the flag puts it down and changes the looking thread alone.
  lemma FlagTested(s: State, i: nat)
    requires Enabled(s, TestFlag(i))
    ensures var r := Apply(s, TestFlag(i));
            && (Inv(s) ==> Inv(r)) && !r.flag && (r.workers[i] == Past <==> s.flag)
            && r.queue == s.queue && r.working == s.working && r.alive == s.alive && r.keepalive == s.keepalive
  {
    if Inv(s) {
      InvKept(s, TestFlag(i));
    }
  }

  class Pool {
    const jobqueue: Queue
    var working: int
    var alive: int
    var keepalive: bool
    ghost var s: State

    // The fields are those of the state, which satisfies the invariant.
    ghost predicate Valid()
      reads this, jobqueue, jobqueue.jobs, jobqueue.hasJobs
    {
      && Inv(s) && jobqueue.Valid() && Tasks(jobqueue.jobs) == s.queue
      && jobqueue.hasJobs.v == (if s.flag then 1 else 0)
      && working == s.working && alive == s.alive && keepalive == s.keepalive
    }

    // `thpool_init`, from where all threads have come alive.
    constructor (n: nat)
      ensures Valid() && Init(s) && |s.workers| == n && fresh(jobqueue) && fresh(jobqueue.hasJobs)
    {
      jobqueue := new Queue();
      working, alive, keepalive := 0, n, true;
      s := State(seq(n, _ => LoopTest), false, [], false, Ready, 0, n, true, Idle, NotCalled,
        0, [], [], seq(n, _ => 0), 0);
      new;
      InitialInv(s);
    }

    // Several steps of one thread while it holds a lock.
    ghost method Follow(steps: seq<Step>)
      requires Inv(s) && Follows(s, steps)
      modifies this`s
      ensures s == Outcome(old(s), steps) && Inv(s)
    {
      InvAlongRun(s, steps);
      s := Outcome(s, steps);
    }

    // `while (threads_keepalive)`, and the test behind `bsem_wait`.
    method TestKeepalive(i: nat, ghost step: Step) returns (b: bool)
      requires Valid() && (step == TestLoop(i) || step == TestAgain(i)) && Enabled(s, step)
      modifies this`s
      ensures Valid() && s == Apply(old(s), step)
      ensures b <==> s.workers[i] == if step.TestLoop? then Entering else Counting
    {
      b := keepalive;
      InvKept(s, step);
      s := Apply(s, step);
    }

    // `bsem_wait`: one look at the flag under its mutex, on entry or when woken.
    method TryWait(i: nat) returns (passed: bool)
      requires Valid() && Enabled(s, TestFlag(i))
      modifies this`s, jobqueue.hasJobs
      ensures Valid() && s == Apply(old(s), TestFlag(i)) && (passed <==> s.workers[i] == Past)
    {
      passed := false;
      if jobqueue.hasJobs.v == 1 {
        jobqueue.hasJobs.Reset();
        passed := true;
      }
      FlagTested(s, i);
      s := Apply(s, TestFlag(i));
    }

    // `num_threads_working++`
    method CountIn(i: nat)
      requires Valid() && Enabled(s, Count(i))
      modifies this`s, this`working
      ensures Valid() && s == Apply(old(s), Count(i))
    {
      working := working + 1;
      InvKept(s, Count(i));
      s := Apply(s, Count(i));
    }

    // `jobqueue_pull` from taking the queue lock to giving it back.
    method PullJob(i: nat, ghost wake: Wake) returns (job: Job?)
      requires Valid() && Follows(s, [Take(i), Release(i, wake)])
      modifies this`s, jobqueue`front, jobqueue`rear, jobqueue`len, jobqueue`jobs, jobqueue.hasJobs
      ensures Valid() && s == Outcome(old(s), [Take(i), Release(i, wake)])
      ensures i < |s.workers| && s.workers[i] == Running(if job == null then NoJob else JobNumber(job.task))
    {
      PullSteps(s, i, wake);
      TasksPulled(jobqueue.jobs);
      job := jobqueue.Pull();
      Follow([Take(i), Release(i, wake)]);
    }

    // The job has been run and is freed.
    ghost method JobDone(i: nat)
      requires Valid() && Enabled(s, RunJob(i))
      modifies this`s
      ensures Valid() && s == Apply(old(s), RunJob(i))
    {
      InvKept(s, RunJob(i));
      s := Apply(s, RunJob(i));
    }

    // `num_threads_working--`, with a signal if nobody is left working.
    method CountOut(i: nat) returns (signal: bool)
      requires Valid() && Enabled(s, Uncount(i))
      modifies this`s, this`working
      ensures Valid() && s == Apply(old(s), Uncount(i))
      ensures signal && old(s).waiter.Sleeping? ==> s.waiter.Signalled?
      ensures !signal ==> s.waiter == old(s).waiter
    {
      working := working - 1;
      signal := working == 0;
      InvKept(s, Uncount(i));
      s := Apply(s, Uncount(i));
    }

    // `num_threads_alive--`
    method Leave(i: nat)
      requires Valid() && Enabled(s, Exit(i))
      modifies this`s, this`alive
      ensures Valid() && s == Apply(old(s), Exit(i))
    {
      alive := alive - 1;
      InvKept(s, Exit(i));
      s := Apply(s, Exit(i));
    }

    // `thpool_add_work`: the job is called by its place in the order of pushing.
    method AddWork(number: nat, ghost wake: Wake) returns (newjob: Job)
      requires Valid() && number == |s.runs| && Follows(s, [Enqueue, PostPushed(wake)])
      modifies this`s, jobqueue`front, jobqueue`rear, jobqueue`len, jobqueue`jobs, jobqueue.jobs, jobqueue.hasJobs
      ensures Valid() && s == Outcome(old(s), [Enqueue, PostPushed(wake)])
      ensures fresh(newjob) && newjob.task == number && jobqueue.jobs == old(jobqueue.jobs) + [newjob]
    {
      TwoSteps(s, Enqueue, PostPushed(wake));
      newjob := new Job(number);
      jobqueue.Push(newjob);
      Follow([Enqueue, PostPushed(wake)]);
    }

    // The two reads of `thpool_wait`, under `thcount_lock`.
    method LookAtLength() returns (nonzero: bool)
      requires Valid() && Enabled(s, ReadLength)
      modifies this`s
      ensures Valid() && s == Apply(old(s), ReadLength) && (nonzero <==> s.waiter.GoingToSleep?)
    {
      nonzero := jobqueue.len != 0;
      InvKept(s, ReadLength);
      s := Apply(s, ReadLength);
    }

    method LookAtWorking() returns (busy: bool)
      requires Valid() && Enabled(s, ReadWorking)
      modifies this`s
      ensures Valid() && s == Apply(old(s), ReadWorking)
      ensures busy <==> s.waiter.GoingToSleep?
      ensures !busy ==> s.waited == old(s).waiter.seen && forall j | 0 <= j < s.waited :: s.runs[j] == 1
    {
      busy := working != 0;
      InvKept(s, ReadWorking);
      s := Apply(s, ReadWorking);
    }

    // `threads_keepalive = 0`
    method BeginDestroy()
      requires Valid() && Enabled(s, CallDestroy)
      modifies this`s, this`keepalive
      ensures Valid() && s == Apply(old(s), CallDestroy)
    {
      keepalive := false;
      InvKept(s, CallDestroy);
      s := Apply(s, CallDestroy);
    }

    // One turn of the polling loops: `bsem_post_all` while threads are alive.
    method Poll() returns (over: bool)
      requires Valid() && s.destroyer.Polling?
      modifies this`s, jobqueue.hasJobs
      ensures Valid() && (over <==> alive == 0)
      ensures var step := if over then SeeNoneAlive else PostAll;
              Enabled(old(s), step) && s == Apply(old(s), step)
    {
      over := alive == 0;
      ghost var step := if over then SeeNoneAlive else PostAll;
      if !over {
        jobqueue.hasJobs.Post();
      }
      InvKept(s, step);
      s := Apply(s, step);
    }

    // `free(jobqueue_pull(jobqueue_p))`
    method ClearNext()
      requires Valid() && Follows(s, [ClearOne])
      modifies this`s, jobqueue`front, jobqueue`rear, jobqueue`len, jobqueue`jobs, jobqueue.hasJobs
      ensures Valid() && s == Outcome(old(s), [ClearOne])
    {
      TasksPulled(jobqueue.jobs);
      ClearSteps(s);
      var job := jobqueue.Pull();
      Follow([ClearOne]);
    }

    // `jobqueue_clear`: what is left in the queue is freed, job by job; then
    // every job ever pushed was run once or freed once.
    method ClearQueue()
      requires Valid() && s.destroyer.Clearing? && !s.locked
      modifies this`s, jobqueue`front, jobqueue`rear, jobqueue`len, jobqueue`jobs, jobqueue.hasJobs
      ensures Valid() && TakenDown(s) && s.runs == old(s).runs && jobqueue.hasJobs.v == 0
    {
      while jobqueue.len != 0
        invariant Valid() && s.destroyer.Clearing? && !s.locked && s.runs == old(s).runs
        decreases |s.queue|
      {
        OneStep(s, ClearOne);
        ClearNext();
      }
      FinishClear();
      DoneMeansTakenDown(s);
    }

    // `bsem_reset`
    method FinishClear()
      requires Valid() && Enabled(s, EndClear)
      modifies this`s, jobqueue.hasJobs
      ensures Valid() && s == Apply(old(s), EndClear)
    {
      InvKept(s, EndClear);
      jobqueue.hasJobs.Reset();
      s := Apply(s, EndClear);
    }
  }
}
