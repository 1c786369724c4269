/** The thread pool as a transition system: workers, one pusher, one waiter and
    one destroyer, whose steps are the stretches between two lock operations. */
module ThreadPool {
  import opened JobQueue

  // A job is called by its place in the order of pushing.
  datatype Maybe = NoJob | JobNumber(j: nat)

  // Where a worker is in `thread_do`, `bsem_wait` and `jobqueue_pull`.
  datatype Worker =
    | LoopTest // at `while (threads_keepalive)`
    | Entering // about to look at the semaphore
    | Asleep // on its condition
    | Woken // from it, about to look again
    | Past // holds the token it took, at `if (threads_keepalive)`
    | Counting // about to be counted as working
    | Pulling // counted, about to pull
    | Releasing(job: Maybe, post: bool) // queue updated, queue lock still held
    | Running(job: Maybe)
    | Uncounting // job done, still counted
    | Exiting // out of the loop, still counted as alive
    | Dead

  // `thpool_add_work`: `Posting` is behind the update of the queue, with its lock.
  datatype Pusher = Ready | Posting

  // `thpool_wait`: `Testing` and `GoingToSleep` hold `thcount_lock`, the former
  // after a length of zero was read, when `seen` jobs had been pushed.
  datatype Waiter = Idle | Calling | Testing(seen: nat) | GoingToSleep | Sleeping | Signalled

  // `thpool_destroy`.
  datatype Destroyer = NotCalled | Polling | Clearing | Done

  datatype State = State(
    workers: seq<Worker>,
    flag: bool, // the semaphore's `v`
    queue: seq<nat>,
    locked: bool, // the queue's `rwmutex`
    pusher: Pusher,
    working: int, // `num_threads_working`
    alive: int, // `num_threads_alive`
    keepalive: bool,
    waiter: Waiter,
    destroyer: Destroyer,
    head: nat, // how many jobs left the queue, run or freed
    runs: seq<nat>, // for each pushed job, how often it was run
    freed: seq<nat>, // and how often it was freed without being run
    late: seq<nat>, // for each worker, the jobs it started after `keepalive` was cleared
    waited: nat) // how many jobs the last finished wait vouches for

  // After `thpool_init(n)`.
  predicate Init(s: State) {
    && (forall i | 0 <= i < |s.workers| :: s.workers[i] == LoopTest)
    && !s.flag && s.queue == [] && !s.locked && s.pusher == Ready && s.working == 0 && s.alive == |s.workers|
    && s.keepalive && s.waiter == Idle && s.destroyer == NotCalled
    && s.head == 0 && s.runs == [] && s.freed == [] && s.waited == 0
    && |s.late| == |s.workers| && forall i | 0 <= i < |s.late| :: s.late[i] == 0
  }

  // ----- Counting workers -----

  datatype Feature =
    | IsAlive | IsCounted | IsAsleep | IsWoken | IsCarrying | IsLocking | IsGone | IsHolding(j: nat) | Rank

  function Flag(b: bool): nat {
    if b then 1 else 0
  }

  predicate HoldsJob(w: Worker, j: nat) {
    (w.Releasing? || w.Running?) && w.job == JobNumber(j)
  }

  // How many steps a worker can still take until it sleeps, wake-ups included.
  function StepsLeft(w: Worker): nat {
    match w
    case Asleep => 0
    case Dead => 0
    case Entering => 1
    case Woken => 1
    case Exiting => 1
    case LoopTest => 2
    case Uncounting => 6
    case Running(_) => 7
    case Releasing(_, post) => if post then 20 else 8
    case Pulling => 9
    case Counting => 10
    case Past => 11
  }

  function Weight(f: Feature, w: Worker): nat {
    match f
    case IsAlive => Flag(!w.Dead?)
    case IsCounted => Flag(w.Pulling? || w.Releasing? || w.Running? || w.Uncounting?)
    case IsAsleep => Flag(w.Asleep?)
    case IsWoken => Flag(w.Woken?)
    case IsCarrying => Flag(w.Past? || w.Counting? || w.Pulling? || (w.Releasing? && w.post))
    case IsLocking => Flag(w.Releasing?)
    case IsGone => Flag(w.Exiting? || w.Dead?)
    case IsHolding(j) => Flag(HoldsJob(w, j))
    case Rank => StepsLeft(w)
  }

  function Total(f: Feature, ws: seq<Worker>): nat {
    if ws == [] then 0 else Weight(f, ws[0]) + Total(f, ws[1..])
  }

  // ----- The semaphore -----

  datatype Wake = Nobody | Wakes(i: nat)

  // `pthread_cond_signal` wakes one sleeper when there is one.
  predicate CanWake(ws: seq<Worker>, wake: Wake) {
    match wake
    case Nobody => Total(IsAsleep, ws) == 0
    case Wakes(i) => i < |ws| && ws[i].Asleep?
  }

  function AfterWake(ws: seq<Worker>, wake: Wake): (r: seq<Worker>)
    requires wake.Wakes? ==> wake.i < |ws|
    ensures |r| == |ws|
  {
    match wake
    case Nobody => ws
    case Wakes(i) => ws[i := Woken]
  }

  // `pthread_cond_broadcast`.
  function AllWoken(ws: seq<Worker>): (r: seq<Worker>)
    ensures |r| == |ws|
  {
    if ws == [] then [] else [if ws[0].Asleep? then Woken else ws[0]] + AllWoken(ws[1..])
  }

  // ----- Steps -----

  datatype Step =
    | TestLoop(i: nat)
    | TestFlag(i: nat) // both on entry to `bsem_wait` and after a wake-up
    | WakeSpuriously(i: nat)
    | TestAgain(i: nat)
    | Count(i: nat)
    | Take(i: nat)
    | Release(i: nat, wake: Wake)
    | RunJob(i: nat)
    | Uncount(i: nat)
    | Exit(i: nat)
    | Enqueue
    | PostPushed(wake: Wake)
    | CallWait
    | ReadLength
    | ReadWorking
    | FallAsleep
    | WakeWaiterSpuriously
    | CallDestroy
    | PostAll
    | SeeNoneAlive
    | ClearOne
    | EndClear

  // The waiter holds `thcount_lock` between its two reads and until it sleeps.
  predicate CountLockFree(s: State) {
    !s.waiter.Testing? && !s.waiter.GoingToSleep?
  }

  // From `jobqueue_destroy` on the pool is being freed and nobody else uses it:
  // who is still in `thpool_wait` then stays there.
  predicate PoolThere(s: State) {
    s.destroyer.NotCalled? || s.destroyer.Polling?
  }

  predicate Enabled(s: State, step: Step) {
    var n := |s.workers|;
    match step
    case TestLoop(i) => i < n && s.workers[i].LoopTest?
    case TestFlag(i) => i < n && (s.workers[i].Entering? || s.workers[i].Woken?)
    case WakeSpuriously(i) => i < n && s.workers[i].Asleep?
    case TestAgain(i) => i < n && s.workers[i].Past?
    case Count(i) => i < n && s.workers[i].Counting? && CountLockFree(s)
    case Take(i) => i < n && s.workers[i].Pulling? && !s.locked
    case Release(i, wake) =>
      i < n && s.workers[i].Releasing? && if s.workers[i].post then CanWake(s.workers, wake) else wake == Nobody
    case RunJob(i) => i < n && s.workers[i].Running?
    case Uncount(i) => i < n && s.workers[i].Uncounting? && CountLockFree(s)
    case Exit(i) => i < n && s.workers[i].Exiting? && CountLockFree(s)
    case Enqueue => s.pusher.Ready? && !s.locked && PoolThere(s)
    case PostPushed(wake) => s.pusher.Posting? && CanWake(s.workers, wake)
    case CallWait => s.waiter.Idle? && PoolThere(s)
    case ReadLength => (s.waiter.Calling? || s.waiter.Signalled?) && PoolThere(s)
    case ReadWorking => s.waiter.Testing? && PoolThere(s)
    case FallAsleep => s.waiter.GoingToSleep? && PoolThere(s)
    case WakeWaiterSpuriously => s.waiter.Sleeping? && PoolThere(s)
    case CallDestroy => s.destroyer.NotCalled?
    case PostAll => s.destroyer.Polling? && s.alive != 0
    case SeeNoneAlive => s.destroyer.Polling? && s.alive == 0
    case ClearOne => s.destroyer.Clearing? && s.queue != [] && !s.locked
    case EndClear => s.destroyer.Clearing? && s.queue == []
  }

  function OneMore(counts: seq<nat>, j: nat): seq<nat> {
    if j < |counts| then counts[j := counts[j] + 1] else counts
  }

  function Front(q: seq<nat>): Maybe {
    if q == [] then NoJob else JobNumber(q[0])
  }

  // `num_threads_working--`, and the signal when that leaves nobody working.
  function AfterUncount(s: State, i: nat): State
    requires i < |s.workers|
  {
    s.(workers := s.workers[i := LoopTest], working := s.working - 1,
       waiter := if s.working - 1 == 0 && s.waiter.Sleeping? then Signalled else s.waiter)
  }

  // The end of `jobqueue_pull`, and the start of the job.
  function AfterRelease(s: State, i: nat, wake: Wake): State
    requires Enabled(s, Release(i, wake))
  {
    var w := s.workers[i];
    var ws := s.workers[i := Running(w.job)];
    s.(workers := if w.post then AfterWake(ws, wake) else ws, flag := s.flag || w.post, locked := false,
       late := if w.job.JobNumber? && !s.keepalive then OneMore(s.late, i) else s.late)
  }

  function AfterRun(s: State, i: nat): State
    requires Enabled(s, RunJob(i))
  {
    var job := s.workers[i].job;
    s.(workers := s.workers[i := Uncounting], runs := if job.JobNumber? then OneMore(s.runs, job.j) else s.runs)
  }

  function Apply(s: State, step: Step): State
    requires Enabled(s, step)
  {
    match step
    case TestLoop(i) => s.(workers := s.workers[i := if s.keepalive then Entering else Exiting])
    case TestFlag(i) => s.(workers := s.workers[i := if s.flag then Past else Asleep], flag := false)
    case WakeSpuriously(i) => s.(workers := s.workers[i := Woken])
    case TestAgain(i) => s.(workers := s.workers[i := if s.keepalive then Counting else LoopTest])
    case Count(i) => s.(workers := s.workers[i := Pulling], working := s.working + 1)
    case Take(i) =>
      s.(workers := s.workers[i := Releasing(Front(s.queue), |s.queue| > 1)],
         queue := Pulled(s.queue), locked := true,
         head := if s.queue == [] then s.head else s.head + 1)
    case Release(i, wake) => AfterRelease(s, i, wake)
    case RunJob(i) => AfterRun(s, i)
    case Uncount(i) => AfterUncount(s, i)
    case Exit(i) => s.(workers := s.workers[i := Dead], alive := s.alive - 1)
    case Enqueue =>
      s.(queue := s.queue + [|s.runs|], runs := s.runs + [0], freed := s.freed + [0], locked := true, pusher := Posting)
    case PostPushed(wake) => s.(workers := AfterWake(s.workers, wake), flag := true, locked := false, pusher := Ready)
    case CallWait => s.(waiter := Calling)
    case ReadLength => s.(waiter := if s.queue == [] then Testing(|s.runs|) else GoingToSleep)
    case ReadWorking =>
      if s.working == 0 then s.(waiter := Idle, waited := s.waiter.seen) else s.(waiter := GoingToSleep)
    case FallAsleep => s.(waiter := Sleeping)
    case WakeWaiterSpuriously => s.(waiter := Signalled)
    case CallDestroy => s.(destroyer := Polling, keepalive := false)
    case PostAll => s.(workers := AllWoken(s.workers), flag := true)
    case SeeNoneAlive => s.(destroyer := Clearing)
    case ClearOne =>
      s.(queue := Pulled(s.queue), head := s.head + 1, flag := s.flag || |s.queue| > 1,
         freed := OneMore(s.freed, s.queue[0]))
    case EndClear => s.(destroyer := Done, flag := false)
  }
}
