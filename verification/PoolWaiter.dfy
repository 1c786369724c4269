/** Whoever is in `thpool_wait` when `thpool_destroy` is called may be left there
    for good, with the pool freed around it. */
module PoolWaiter {
  import opened ThreadPool
  import opened PoolInvariants
  import opened PoolSafety
  import opened PoolShutdown

  // ----- What the caller of `thpool_destroy` can count on -----

  // The waiter is out, or one read away from getting out with a thread alive that
  // cannot leave before.
  predicate Out(s: State) {
    s.waiter.Idle? || (PoolThere(s) && s.waiter.Testing? && s.working == 0 && s.alive > 0)
  }

  lemma OutKept(s: State, step: Step)
    requires Inv(s) && Out(s) && Enabled(s, step) && !step.CallWait?
    ensures Out(Apply(s, step))
  {
  }

  ghost predicate NoNewWait(steps: seq<Step>) {
    forall k | 0 <= k < |steps| :: !steps[k].CallWait?
  }

  lemma {:induction false} OutAlongRun(s: State, steps: seq<Step>)
    requires Inv(s) && Out(s) && Follows(s, steps) && NoNewWait(steps)
    ensures Out(Outcome(s, steps))
    decreases |steps|
  {
    if steps == [] {
    } else {
      OutKept(s, steps[0]);
      InvKept(s, steps[0]);
      OutAlongRun(Apply(s, steps[0]), steps[1..]);
    }
  }

  // A step of the shutdown that is none of a waiter on its way out keeps it in.
  lemma InsideKept(s: State, step: Step)
    requires Inv(s) && !Out(s) && !s.keepalive && Enabled(s, step) && Ends(s, step)
    requires !step.ReadLength? && (step.ReadWorking? ==> s.alive > 0)
    ensures !Out(Apply(s, step))
  {
  }

  // A shutdown that gets to its end before the waiter gets out.
  lemma {:induction false} EndsAroundWaiter(s: State) returns (steps: seq<Step>)
    requires Inv(s) && !Out(s) && !s.keepalive
    ensures Follows(s, steps) && NoNewWait(steps)
    ensures Outcome(s, steps).destroyer.Done? && !Outcome(s, steps).waiter.Idle?
    decreases ShutdownMeasure(s)
  {
    if s.destroyer.Done? {
      steps := [];
    } else {
      var step := NextStep(s);
      InsideKept(s, step);
      EndsLowersMeasure(s, step);
      InvKept(s, step);
      var rest := EndsAroundWaiter(Apply(s, step));
      steps := [step] + rest;
      assert steps[1..] == rest;
    }
  }

  // `steps` lead from the call of `thpool_destroy` to its end, and nobody calls
  // `thpool_wait` meanwhile.
  ghost predicate ShutsDown(s: State, steps: seq<Step>)
    requires Enabled(s, CallDestroy)
  {
    var t := Apply(s, CallDestroy);
    Follows(t, steps) && NoNewWait(steps) && Outcome(t, steps).destroyer.Done?
  }

  // Whatever the schedule, the waiter gets out before the pool is freed, if and
  // only if at the call of `thpool_destroy` nobody waits, or the waiter has read
  // a length of zero and only has to see that nobody works, with a thread alive.
  lemma WaiterGetsOut(s0: State, before: seq<Step>, s: State)
    requires Reached(s0, before, s) && s.destroyer.NotCalled?
    ensures (forall steps | ShutsDown(s, steps) :: Outcome(Apply(s, CallDestroy), steps).waiter.Idle?)
        <==> s.waiter.Idle? || (s.waiter.Testing? && s.working == 0 && s.alive > 0)
  {
    var t := Apply(s, CallDestroy);
    ReachedInv(s0, before, s);
    InvKept(s, CallDestroy);
    if Out(t) {
      forall steps | ShutsDown(s, steps) ensures Outcome(t, steps).waiter.Idle? {
        OutAlongRun(t, steps);
      }
    } else {
      var steps := EndsAroundWaiter(t);
      assert ShutsDown(s, steps);
    }
  }

  // ----- Once the last thread is gone -----

  // Nobody is left to run what is queued, or to wake whoever waits for it.
  ghost predicate Abandoned(s: State) {
    && !s.waiter.Idle?
    && (PoolThere(s) ==> s.destroyer.Polling? && s.alive == 0 && s.queue != [] && !s.waiter.Testing?)
  }

  lemma AbandonedKept(s: State, step: Step)
    requires Inv(s) && Abandoned(s) && Enabled(s, step)
    ensures Abandoned(Apply(s, step))
  {
    if ByWorker(step) {
      AtLeastOne(IsAlive, s, step.i);
    }
  }

  lemma {:induction false} AbandonedForGood(s: State, steps: seq<Step>)
    requires Inv(s) && Abandoned(s) && Follows(s, steps)
    ensures !Outcome(s, steps).waiter.Idle?
    decreases |steps|
  {
    if steps == [] {
    } else {
      AbandonedKept(s, steps[0]);
      InvKept(s, steps[0]);
      AbandonedForGood(Apply(s, steps[0]), steps[1..]);
    }
  }

  // With the queue empty, or once the length was read as zero, it returns.
  lemma ReturnsYet(s: State) returns (steps: seq<Step>)
    requires Inv(s) && PoolThere(s) && s.alive == 0 && (s.queue == [] || s.waiter.Testing?)
    ensures Follows(s, steps) && Outcome(s, steps).waiter.Idle?
  {
    CountedAreAlive(s.workers);
    if s.waiter.Idle? {
      steps := [];
    } else if s.waiter.Testing? {
      steps := [ReadWorking];
      OneStep(s, ReadWorking);
    } else {
      steps := [ReadLength, ReadWorking];
      FirstStep(s, ReadLength, [ReadWorking]);
      OneStep(Apply(s, ReadLength), ReadWorking);
    }
  }

  lemma {:induction false} CountedAreAlive(ws: seq<Worker>)
    ensures Total(IsCounted, ws) <= Total(IsAlive, ws)
  {
    if ws == [] {
    } else {
      CountedAreAlive(ws[1..]);
    }
  }

  ghost predicate CanReturn(s: State) {
    exists steps :: Follows(s, steps) && Outcome(s, steps).waiter.Idle?
  }

  // Once the last thread of a pool being shut down is gone, who is in
  // `thpool_wait` still can get out, if it comes before `thpool_destroy`, exactly
  // if the queue is empty, or was when its length was read last.
  lemma WaiterAtTheEnd(s0: State, before: seq<Step>, s: State)
    requires Reached(s0, before, s) && s.destroyer.Polling? && s.alive == 0 && !s.waiter.Idle?
    ensures CanReturn(s) <==> s.queue == [] || s.waiter.Testing?
  {
    ReachedInv(s0, before, s);
    if s.queue == [] || s.waiter.Testing? {
      var steps := ReturnsYet(s);
    } else {
      forall steps | Follows(s, steps) ensures !Outcome(s, steps).waiter.Idle? {
        AbandonedForGood(s, steps);
      }
    }
  }

  lemma {:induction false} OneStepMore(s: State, steps: seq<Step>, step: Step)
    requires Follows(s, steps) && Enabled(Outcome(s, steps), step)
    ensures Follows(s, steps + [step]) && Outcome(s, steps + [step]) == Apply(Outcome(s, steps), step)
    decreases |steps|
  {
    if steps == [] {
      OneStep(s, step);
    } else {
      OneStepMore(Apply(s, steps[0]), steps[1..], step);
      assert steps + [step] == [steps[0]] + (steps[1..] + [step]);
      FirstStep(s, steps[0], steps[1..] + [step]);
    }
  }

  lemma Goes(s0: State, steps: seq<Step>, s: State, step: Step) returns (longer: seq<Step>, t: State)
    requires Reached(s0, steps, s) && Enabled(s, step)
    ensures Reached(s0, longer, t) && t == Apply(s, step)
  {
    OneStepMore(s0, steps, step);
    longer, t := steps + [step], Apply(s, step);
  }

  // A pool of one worker: a job is pushed ...
  lemma JobPushed() returns (s0: State, steps: seq<Step>, s: State)
    ensures Reached(s0, steps, s) && |s0.workers| == 1
    ensures s == State([LoopTest], true, [0], false, Ready, 0, 1, true, Idle, NotCalled, 0, [0], [0], [0], 0)
  {
    s0 := State([LoopTest], false, [], false, Ready, 0, 1, true, Idle, NotCalled, 0, [], [], [0], 0);
    steps, s := Goes(s0, [], s0, Enqueue);
    steps, s := Goes(s0, steps, s, PostPushed(Nobody));
  }

  // ... somebody waits for it ...
  lemma WaiterAsleep() returns (s0: State, steps: seq<Step>, s: State)
    ensures Reached(s0, steps, s) && |s0.workers| == 1
    ensures s == State([LoopTest], true, [0], false, Ready, 0, 1, true, Sleeping, NotCalled, 0, [0], [0], [0], 0)
  {
    s0, steps, s := JobPushed();
    steps, s := Goes(s0, steps, s, CallWait);
    steps, s := Goes(s0, steps, s, ReadLength);
    steps, s := Goes(s0, steps, s, FallAsleep);
  }

  // ... the worker leaves before it looks at the queue ...
  lemma WorkerGone() returns (s0: State, steps: seq<Step>, s: State)
    ensures Reached(s0, steps, s) && |s0.workers| == 1
    ensures s == State([Dead], true, [0], false, Ready, 0, 0, false, Sleeping, Polling, 0, [0], [0], [0], 0)
  {
    s0, steps, s := WaiterAsleep();
    steps, s := Goes(s0, steps, s, CallDestroy);
    steps, s := Goes(s0, steps, s, TestLoop(0));
    steps, s := Goes(s0, steps, s, Exit(0));
  }

  // ... and the pool is freed with the job in it and the waiter asleep.
  lemma WaiterLeftAsleep() returns (s0: State, steps: seq<Step>, s: State)
    ensures Reached(s0, steps, s) && |s0.workers| == 1
    ensures s.destroyer.Done? && s.waiter.Sleeping? && Runs(s, 0) == 0 && Freed(s, 0) == 1
  {
    s0, steps, s := WorkerGone();
    steps, s := Goes(s0, steps, s, SeeNoneAlive);
    steps, s := Goes(s0, steps, s, ClearOne);
    steps, s := Goes(s0, steps, s, EndClear);
  }
}
