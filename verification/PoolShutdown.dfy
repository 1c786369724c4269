/** Every shutdown comes to its end: once `keepalive` is cleared, and however
    the threads and the polling loop are scheduled, a run of steps that change
    anything reaches the end of `thpool_destroy`. */
module PoolShutdown {
  import opened ThreadPool
  import opened PoolInvariants
  import opened PoolSafety
  import opened PoolDrain

  // The steps of a shutdown: of the posts to all, those that change the state.
  predicate Ends(s: State, step: Step) {
    Progress(step) || (step.PostAll? && PostTells(s)) || step.SeeNoneAlive? || step.ClearOne? || step.EndClear?
  }

  // The flag is down, or somebody sleeps.
  predicate PostTells(s: State) {
    !s.flag || Total(IsAsleep, s.workers) > 0
  }

  lemma {:induction false} WakingNobody(ws: seq<Worker>)
    ensures AllWoken(ws) == ws <==> Total(IsAsleep, ws) == 0
  {
    if ws == [] {
    } else {
      WakingNobody(ws[1..]);
      assert ws == [ws[0]] + ws[1..] && AllWoken(ws)[1..] == AllWoken(ws[1..]);
    }
  }

  // Any other post to all leaves the state as it is.
  lemma PostChanges(s: State)
    requires Enabled(s, PostAll)
    ensures Apply(s, PostAll) != s <==> PostTells(s)
  {
    WakingNobody(s.workers);
  }

  ghost predicate EndsThroughout(s: State, steps: seq<Step>)
    requires Follows(s, steps)
    decreases |steps|
  {
    steps == [] || (Ends(s, steps[0]) && EndsThroughout(Apply(s, steps[0]), steps[1..]))
  }

  // ----- The measure -----

  // How many workers may still take a token from the semaphore.
  function InWait(ws: seq<Worker>): nat {
    if ws == [] then 0 else Flag(ws[0].Entering? || ws[0].Asleep? || ws[0].Woken?) + InWait(ws[1..])
  }

  function Stage(d: Destroyer): nat {
    match d
    case Done => 0
    case Clearing => 2
    case _ => 3
  }

  // Every post to all starts a round, and each round takes a worker out.
  function Rounds(s: State): nat {
    InWait(s.workers) + 1 - Flag(s.flag) + Stage(s.destroyer)
  }

  // A raised flag with sleepers can be posted to once more, which gives each of
  // them a step.
  function StepsToEnd(s: State): nat {
    Measure(s) + if s.flag then 2 * Total(IsAsleep, s.workers) else 0
  }

  // A new round gives each sleeper a step or two and one token to one of them.
  function Bound(workers: nat, rounds: nat, steps: nat): (b: nat)
    ensures b >= steps
  {
    if rounds == 0 then steps else 12 + 3 * workers + Bound(workers, rounds - 1, steps)
  }

  function ShutdownMeasure(s: State): nat {
    Bound(|s.workers|, Rounds(s), StepsToEnd(s))
  }

  lemma {:induction false} BoundFalls(n: nat, r: nat, m: nat, r2: nat, m2: nat)
    requires if r2 < r then m2 <= m + 11 + 3 * n else r2 == r && m2 < m
    ensures Bound(n, r2, m2) < Bound(n, r, m)
  {
    if r2 == 0 {
    } else {
      BoundFalls(n, r - 1, m, r2 - 1, m2);
    }
  }

  lemma {:induction false} InWaitUpdate(ws: seq<Worker>, i: nat, w: Worker)
    requires i < |ws|
    ensures InWait(ws[i := w]) + InWait([ws[i]]) == InWait(ws) + InWait([w])
  {
    if i == 0 {
      assert ws[0 := w][1..] == ws[1..];
    } else {
      InWaitUpdate(ws[1..], i - 1, w);
      assert ws[i := w][1..] == ws[1..][i - 1 := w];
    }
  }

  lemma {:induction false} InWaitAllWoken(ws: seq<Worker>)
    ensures InWait(AllWoken(ws)) == InWait(ws)
    ensures Total(Rank, AllWoken(ws)) == Total(Rank, ws) + Total(IsAsleep, ws)
  {
    if ws == [] {
    } else {
      InWaitAllWoken(ws[1..]);
      assert AllWoken(ws)[1..] == AllWoken(ws[1..]);
    }
  }

  // Without `keepalive` nobody comes back to the semaphore, and whoever takes
  // the token leaves it; a flag that goes up starts a round.
  lemma WorkerKeepsRounds(s: State, step: Step)
    requires Enabled(s, step) && ByWorker(step) && !s.keepalive
    ensures Rounds(Apply(s, step)) <= Rounds(s)
    ensures Apply(s, step).flag && !s.flag ==> Rounds(Apply(s, step)) < Rounds(s)
  {
    var w := Apply(s, step).workers[step.i];
    InWaitUpdate(s.workers, step.i, w);
    if step.Release? && step.wake.Wakes? {
      InWaitUpdate(s.workers[step.i := w], step.wake.i, Woken);
    }
  }

  lemma ProgressKeepsRounds(s: State, step: Step)
    requires Enabled(s, step) && Progress(step) && !s.keepalive
    ensures Rounds(Apply(s, step)) <= Rounds(s)
    ensures Apply(s, step).flag && !s.flag ==> Rounds(Apply(s, step)) < Rounds(s)
  {
    if ByWorker(step) {
      WorkerKeepsRounds(s, step);
    } else if step.PostPushed? && step.wake.Wakes? {
      InWaitUpdate(s.workers, step.wake.i, Woken);
    }
  }

  lemma {:induction false} SleepersAreWorkers(ws: seq<Worker>)
    ensures Total(IsAsleep, ws) <= |ws|
  {
    if ws == [] {
    } else {
      SleepersAreWorkers(ws[1..]);
    }
  }

  lemma ProgressLowersSteps(s: State, step: Step)
    requires Enabled(s, step) && Progress(step) && !s.keepalive
    ensures var t := Apply(s, step);
            if t.flag && !s.flag then StepsToEnd(t) < StepsToEnd(s) + 2 * |s.workers|
            else StepsToEnd(t) < StepsToEnd(s)
  {
    ProgressLowersMeasure(s, step);
    Changed(IsAsleep, s, step);
    SleepersAreWorkers(Apply(s, step).workers);
  }

  lemma OthersLowerSteps(s: State, step: Step)
    requires Enabled(s, step) && Ends(s, step) && !Progress(step) && Inv(s)
    ensures var t := Apply(s, step);
            if Rounds(t) < Rounds(s) then StepsToEnd(t) <= StepsToEnd(s) + 11 + |s.workers|
            else Rounds(t) == Rounds(s) && StepsToEnd(t) < StepsToEnd(s)
  {
    SleepersAreWorkers(s.workers);
    SleepersAreAlive(s.workers);
    if step.PostAll? {
      InWaitAllWoken(s.workers);
      TotalAllWoken(IsAsleep, s.workers);
    }
  }

  lemma EndsLowersMeasure(s: State, step: Step)
    requires Enabled(s, step) && Ends(s, step) && Inv(s) && !s.keepalive
    ensures ShutdownMeasure(Apply(s, step)) < ShutdownMeasure(s) && !Apply(s, step).keepalive
  {
    var t := Apply(s, step);
    Changed(Rank, s, step);
    if Progress(step) {
      ProgressLowersSteps(s, step);
      ProgressKeepsRounds(s, step);
    } else {
      OthersLowerSteps(s, step);
    }
    BoundFalls(|s.workers|, Rounds(s), StepsToEnd(s), Rounds(t), StepsToEnd(t));
  }

  // ----- Where a shutdown stops -----

  // Where no thread can go on and one is alive, it sleeps in front of a flag
  // that is down: there is something to post.
  lemma BlockedWantsPost(s: State)
    requires Inv(s) && Blocked(s) && s.destroyer.Polling? && s.alive > 0
    ensures !s.flag
  {
    LocksComeFree(s);
    SomeWorker(IsAlive, s.workers);
    var i :| 0 <= i < |s.workers| && Weight(IsAlive, s.workers[i]) > 0;
    AtLeastOne(IsLocking, s, i);
    assert !Enabled(s, TestLoop(i)) && !Enabled(s, TestFlag(i)) && !Enabled(s, TestAgain(i)) && !Enabled(s, Count(i));
    assert !Enabled(s, Take(i)) && !Enabled(s, RunJob(i)) && !Enabled(s, Uncount(i)) && !Enabled(s, Exit(i));
    AtLeastOne(IsAsleep, s, i);
    NobodyWoken(s);
  }

  lemma NobodyWoken(s: State)
    requires Blocked(s)
    ensures Total(IsWoken, s.workers) == 0
  {
    forall i: nat | i < |s.workers| ensures Weight(IsWoken, s.workers[i]) == 0 {
      assert !Enabled(s, TestFlag(i));
    }
    NothingWhereNone(IsWoken, s.workers);
  }

  // With all threads gone the lock of the queue is held by a pusher at most.
  lemma LockInTheEnd(s: State)
    requires Inv(s) && s.alive == 0 && s.locked
    ensures s.pusher.Posting?
  {
    if s.pusher.Ready? {
      SomeWorker(IsLocking, s.workers);
      var i :| 0 <= i < |s.workers| && Weight(IsLocking, s.workers[i]) > 0;
      AtLeastOne(IsAlive, s, i);
    }
  }

  // Until the end there is always a next step, and not one that a waiter takes
  // on its way out.
  lemma NextStep(s: State) returns (step: Step)
    requires Inv(s) && !s.keepalive && !s.destroyer.Done?
    ensures Enabled(s, step) && Ends(s, step) && !step.ReadLength? && (step.ReadWorking? ==> s.alive > 0)
  {
    if s.destroyer.Clearing? {
      if s.queue == [] {
        step := EndClear;
      } else if s.locked {
        LockInTheEnd(s);
        var wake := SomeWake(s.workers);
        step := PostPushed(wake);
      } else {
        step := ClearOne;
      }
    } else if s.alive == 0 {
      step := SeeNoneAlive;
    } else if Blocked(s) {
      BlockedWantsPost(s);
      step := PostAll;
    } else {
      step :| Progress(step) && !step.ReadLength? && Enabled(s, step);
    }
  }

  // No step is left.
  ghost predicate Over(s: State) {
    forall step | Ends(s, step) :: !Enabled(s, step)
  }

  lemma {:induction false} ShutdownsAreBounded(s: State, steps: seq<Step>)
    requires Inv(s) && !s.keepalive && Follows(s, steps) && EndsThroughout(s, steps)
    ensures |steps| + ShutdownMeasure(Outcome(s, steps)) <= ShutdownMeasure(s) && !Outcome(s, steps).keepalive
    decreases |steps|
  {
    if steps == [] {
    } else {
      EndsLowersMeasure(s, steps[0]);
      InvKept(s, steps[0]);
      ShutdownsAreBounded(Apply(s, steps[0]), steps[1..]);
    }
  }

  // The pool after its end: every worker gone, and every pushed job run once or
  // freed once.
  ghost predicate TakenDown(s: State) {
    && s.destroyer.Done? && s.queue == []
    && (forall i | 0 <= i < |s.workers| :: s.workers[i].Dead?)
    && forall j: nat | j < |s.runs| :: Runs(s, j) + Freed(s, j) == 1
  }

  lemma DoneMeansTakenDown(s: State)
    requires Inv(s) && s.destroyer.Done?
    ensures TakenDown(s) && Over(s)
  {
    forall i: nat | i < |s.workers| ensures s.workers[i].Dead? {
      NoWorker(IsAlive, s.workers, i);
    }
    forall j: nat | j < |s.runs| ensures Runs(s, j) + Freed(s, j) == 1 {
      assert JobLaw(s, j);
      HoldersAreAlive(s.workers, j);
    }
  }

  // From every state a pool can reach with `keepalive` cleared, whatever the
  // threads, the pusher and the waiter are doing there: a shutdown is no longer
  // than the measure, and it stops exactly where it has come to its end.
  lemma EveryShutdownEnds(s0: State, before: seq<Step>, s: State, steps: seq<Step>)
    requires Reached(s0, before, s) && !s.keepalive
    requires Follows(s, steps) && EndsThroughout(s, steps)
    ensures |steps| <= ShutdownMeasure(s)
    ensures Over(Outcome(s, steps)) <==> Outcome(s, steps).destroyer.Done?
    ensures Over(Outcome(s, steps)) ==> TakenDown(Outcome(s, steps))
  {
    ReachedInv(s0, before, s);
    ShutdownsAreBounded(s, steps);
    InvAlongRun(s, steps);
    var t := Outcome(s, steps);
    if t.destroyer.Done? {
      DoneMeansTakenDown(t);
    } else {
      var step := NextStep(t);
    }
  }

  // And the end can be reached from each of them.
  lemma {:induction false} CanShutDown(s: State) returns (steps: seq<Step>)
    requires Inv(s) && !s.keepalive
    ensures Follows(s, steps) && EndsThroughout(s, steps) && Outcome(s, steps).destroyer.Done?
    decreases ShutdownMeasure(s)
  {
    if s.destroyer.Done? {
      steps := [];
    } else {
      var step := NextStep(s);
      EndsLowersMeasure(s, step);
      InvKept(s, step);
      var rest := CanShutDown(Apply(s, step));
      steps := [step] + rest;
      assert steps[1..] == rest;
    }
  }
}
