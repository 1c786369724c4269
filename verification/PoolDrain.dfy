/** Every run of the pool drains: with no more pushes, waits, spurious wake-ups
    or shutdown, each step lowers a measure, and where no step is left every
    pushed job has been run and the waiter has returned. */
module PoolDrain {
  import opened ThreadPool
  import opened PoolInvariants
  import opened PoolSafety

  predicate Progress(step: Step) {
    match step
    case WakeSpuriously(_) => false
    case WakeWaiterSpuriously => false
    case Enqueue => false
    case CallWait => false
    case CallDestroy => false
    case PostAll => false
    case SeeNoneAlive => false
    case ClearOne => false
    case EndClear => false
    case _ => true
  }

  function WaiterSteps(w: Waiter): nat {
    match w
    case Calling => 3
    case Signalled => 3
    case Testing(_) => 2
    case GoingToSleep => 1
    case _ => 0
  }

  // Jobs in the queue, posts on their way, and the phases of the threads.
  function Measure(s: State): nat {
    12 * |s.queue| + 11 * Flag(s.flag) + 13 * Flag(s.pusher.Posting?) + Total(Rank, s.workers) + WaiterSteps(s.waiter)
  }

  lemma ProgressLowersMeasure(s: State, step: Step)
    requires Enabled(s, step) && Progress(step)
    ensures Measure(Apply(s, step)) < Measure(s) && Apply(s, step).keepalive == s.keepalive
  {
    if BeforePull(step) {
      PullLowersMeasure(s, step);
    } else if AfterPull(step) {
      JobLowersMeasure(s, step);
    } else {
      Changed(Rank, s, step);
    }
  }

  lemma PullLowersMeasure(s: State, step: Step)
    requires Enabled(s, step) && Progress(step) && BeforePull(step)
    ensures Measure(Apply(s, step)) < Measure(s) && Apply(s, step).keepalive == s.keepalive
  {
    ChangedBeforePull(Rank, s, step);
  }

  lemma JobLowersMeasure(s: State, step: Step)
    requires Enabled(s, step) && Progress(step) && AfterPull(step)
    ensures Measure(Apply(s, step)) < Measure(s) && Apply(s, step).keepalive == s.keepalive
  {
    ChangedAfterPull(Rank, s, step);
  }

  ghost predicate AllProgress(steps: seq<Step>) {
    forall k | 0 <= k < |steps| :: Progress(steps[k])
  }

  // However the threads are scheduled, a run takes at most as many steps.
  lemma {:induction false} RunsAreBounded(s: State, steps: seq<Step>)
    requires s.keepalive && Follows(s, steps) && AllProgress(steps)
    ensures |steps| + Measure(Outcome(s, steps)) <= Measure(s) && Outcome(s, steps).keepalive
    decreases |steps|
  {
    if steps == [] {
    } else {
      ProgressLowersMeasure(s, steps[0]);
      RunsAreBounded(Apply(s, steps[0]), steps[1..]);
    }
  }

  ghost predicate Stuck(s: State) {
    forall step | Progress(step) :: !Enabled(s, step)
  }

  // Empty queue, nobody working, every pushed job run once, nobody waiting.
  ghost predicate Drained(s: State) {
    && s.queue == [] && s.working == 0 && s.waiter.Idle? && s.pusher.Ready?
    && (forall j | 0 <= j < |s.runs| :: s.runs[j] == 1)
    && forall i | 0 <= i < |s.workers| :: s.workers[i].Asleep?
  }

  // A wake-up that a post could make.
  lemma {:induction false} SomeWake(ws: seq<Worker>) returns (wake: Wake)
    ensures CanWake(ws, wake)
  {
    if Total(IsAsleep, ws) == 0 {
      wake := Nobody;
    } else {
      SomeWorker(IsAsleep, ws);
      var i :| 0 <= i < |ws| && Weight(IsAsleep, ws[i]) > 0;
      wake := Wakes(i);
    }
  }

  // No thread can go on, whatever a waiter could do that holds no lock.
  ghost predicate Blocked(s: State) {
    forall step | Progress(step) && !step.ReadLength? :: !Enabled(s, step)
  }

  // The waiter never blocks the workers for good, nor does the queue lock.
  lemma LocksComeFree(s: State)
    requires Inv(s) && Blocked(s) && PoolThere(s)
    ensures CountLockFree(s) && !s.locked && s.pusher.Ready?
  {
    assert !Enabled(s, ReadWorking) && !Enabled(s, FallAsleep);
    var wake := SomeWake(s.workers);
    assert !Enabled(s, PostPushed(wake));
    if s.locked {
      SomeWorker(IsLocking, s.workers);
      var i :| 0 <= i < |s.workers| && Weight(IsLocking, s.workers[i]) > 0;
      assert Enabled(s, Release(i, if s.workers[i].post then wake else Nobody));
    }
  }

  lemma StuckWorkersSleep(s: State, i: nat)
    requires Inv(s) && Stuck(s) && s.keepalive && i < |s.workers|
    ensures s.workers[i].Asleep?
  {
    LocksComeFree(s);
    AtLeastOne(IsGone, s, i);
    AtLeastOne(IsLocking, s, i);
    assert !Enabled(s, TestLoop(i)) && !Enabled(s, TestFlag(i)) && !Enabled(s, TestAgain(i)) && !Enabled(s, Count(i));
    assert !Enabled(s, Take(i)) && !Enabled(s, RunJob(i)) && !Enabled(s, Uncount(i));
  }

  lemma {:induction false} NothingWhereNone(f: Feature, ws: seq<Worker>)
    requires forall i | 0 <= i < |ws| :: Weight(f, ws[i]) == 0
    ensures Total(f, ws) == 0
  {
    if ws == [] {
    } else {
      NothingWhereNone(f, ws[1..]);
    }
  }

  lemma StuckMeansDrained(s: State)
    requires Inv(s) && Stuck(s) && s.keepalive && s.workers != []
    ensures Drained(s)
  {
    forall i: nat | i < |s.workers| ensures s.workers[i].Asleep? {
      StuckWorkersSleep(s, i);
    }
    LocksComeFree(s);
    NothingWhereNone(IsCarrying, s.workers);
    NothingWhereNone(IsWoken, s.workers);
    NothingWhereNone(IsCounted, s.workers);
    AtLeastOne(IsAsleep, s, 0);
    assert s.queue == [] && s.working == 0;
    assert !Enabled(s, ReadLength);
    forall j: nat | j < |s.runs| ensures s.runs[j] == 1 {
      NothingWhereNone(IsHolding(j), s.workers);
      assert JobLaw(s, j) && Freed(s, j) == 0;
    }
  }

  // From every state a live pool can reach, and however its threads are
  // scheduled from there: the run ends, and what it ends in is drained.
  lemma EveryRunDrains(s0: State, before: seq<Step>, s: State, steps: seq<Step>)
    requires Reached(s0, before, s) && s.keepalive && s.workers != []
    requires Follows(s, steps) && AllProgress(steps)
    ensures |steps| <= Measure(s)
    ensures Stuck(Outcome(s, steps)) ==> Drained(Outcome(s, steps))
  {
    ReachedInv(s0, before, s);
    RunsAreBounded(s, steps);
    InvAlongRun(s, steps);
    SameWorkers(s, steps);
    if Stuck(Outcome(s, steps)) {
      StuckMeansDrained(Outcome(s, steps));
    }
  }

  lemma {:induction false} SameWorkers(s: State, steps: seq<Step>)
    requires Follows(s, steps)
    ensures |Outcome(s, steps).workers| == |s.workers|
    decreases |steps|
  {
    if steps == [] {
    } else {
      Changed(Rank, s, steps[0]);
      SameWorkers(Apply(s, steps[0]), steps[1..]);
    }
  }

  // And a drained state can in fact be reached from each of them.
  lemma {:induction false} CanDrain(s: State) returns (steps: seq<Step>)
    requires Inv(s) && s.keepalive && s.workers != []
    ensures Follows(s, steps) && AllProgress(steps) && Drained(Outcome(s, steps))
    decreases Measure(s)
  {
    if Stuck(s) {
      StuckMeansDrained(s);
      steps := [];
    } else {
      var step :| Progress(step) && Enabled(s, step);
      ProgressLowersMeasure(s, step);
      InvKept(s, step);
      Changed(Rank, s, step);
      var rest := CanDrain(Apply(s, step));
      steps := [step] + rest;
      assert steps[1..] == rest;
    }
  }
}
