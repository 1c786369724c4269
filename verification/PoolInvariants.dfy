/** What every step of the pool keeps. */
module PoolInvariants {
  import opened JobQueue
  import opened ThreadPool

  // ----- Totals under the updates the steps make -----

  lemma {:induction false} TotalUpdate(f: Feature, ws: seq<Worker>, i: nat, w: Worker)
    requires i < |ws|
    ensures Total(f, ws[i := w]) == Total(f, ws) - Weight(f, ws[i]) + Weight(f, w)
    ensures Total(f, ws) >= Weight(f, ws[i])
  {
    if i == 0 {
      assert ws[0 := w][1..] == ws[1..];
    } else {
      TotalUpdate(f, ws[1..], i - 1, w);
      assert ws[i := w][1..] == ws[1..][i - 1 := w];
    }
  }

  lemma {:induction false} TotalAllWoken(f: Feature, ws: seq<Worker>)
    ensures f == IsAsleep ==> Total(f, AllWoken(ws)) == 0
    ensures f == IsWoken ==> Total(f, AllWoken(ws)) == Total(f, ws) + Total(IsAsleep, ws)
    ensures !f.IsAsleep? && !f.IsWoken? && !f.Rank? ==> Total(f, AllWoken(ws)) == Total(f, ws)
  {
    if ws == [] {
    } else {
      TotalAllWoken(f, ws[1..]);
      assert AllWoken(ws)[1..] == AllWoken(ws[1..]);
    }
  }

  // A worker that holds a job is counted.
  lemma {:induction false} HoldersAreCounted(ws: seq<Worker>, j: nat)
    ensures Total(IsHolding(j), ws) <= Total(IsCounted, ws)
  {
    if ws == [] {
    } else {
      HoldersAreCounted(ws[1..], j);
    }
  }

  // A total of a yes-or-no feature is positive exactly when a worker has it.
  lemma {:induction false} SomeWorker(f: Feature, ws: seq<Worker>)
    requires Total(f, ws) > 0
    ensures exists i :: 0 <= i < |ws| && Weight(f, ws[i]) > 0
  {
    if Weight(f, ws[0]) > 0 {
    } else {
      SomeWorker(f, ws[1..]);
      var i :| 0 <= i < |ws| - 1 && Weight(f, ws[1..][i]) > 0;
      assert Weight(f, ws[i + 1]) > 0;
    }
  }

  lemma {:induction false} NoWorker(f: Feature, ws: seq<Worker>, i: nat)
    requires Total(f, ws) == 0 && i < |ws|
    ensures Weight(f, ws[i]) == 0
  {
    if i == 0 {
    } else {
      NoWorker(f, ws[1..], i - 1);
    }
  }

  // ----- The invariant -----

  // The two counters, and the queue lock with its one holder.
  ghost predicate Counters(s: State) {
    s.working == Total(IsCounted, s.workers) && s.alive == Total(IsAlive, s.workers) && LockHeld(s)
  }

  ghost predicate LockHeld(s: State) {
    && Flag(s.locked) == Total(IsLocking, s.workers) + Flag(s.pusher.Posting?)
    && (s.pusher.Posting? ==> s.queue != [])
  }

  // Posts that are on their way and tokens that have been taken but not used.
  function Tokens(s: State): nat {
    Flag(s.flag) + Total(IsCarrying, s.workers) + Flag(s.pusher.Posting?)
  }

  ghost predicate NobodyGone(s: State) {
    s.keepalive ==> Total(IsGone, s.workers) == 0
  }

  // A nonempty queue has a token somewhere while the pool is kept alive.
  ghost predicate TokenThere(s: State) {
    s.keepalive && s.queue != [] ==> Tokens(s) > 0
  }

  // A raised flag with sleepers has a worker on its way to it.
  ghost predicate SleepersWoken(s: State) {
    s.flag && Total(IsAsleep, s.workers) > 0 ==> Total(IsWoken, s.workers) > 0
  }

  ghost predicate Phases(s: State) {
    && (s.keepalive <==> s.destroyer.NotCalled?)
    && (s.destroyer.Clearing? || s.destroyer.Done? ==> s.alive == 0)
    && (s.destroyer.Done? ==> s.queue == [])
  }

  // Every pushed job is in the queue, in order; or with one worker; or was run
  // once; or was freed once.
  ghost predicate JobsConserved(s: State) {
    && QueueInOrder(s) && (forall j: nat :: JobLaw(s, j))
    && (!s.destroyer.Clearing? && !s.destroyer.Done? ==> forall j: nat :: Freed(s, j) == 0)
  }

  ghost predicate QueueInOrder(s: State) {
    && |s.freed| == |s.runs| && s.head + |s.queue| == |s.runs|
    && forall k | 0 <= k < |s.queue| :: s.queue[k] == s.head + k
  }

  ghost predicate JobLaw(s: State, j: nat) {
    Total(IsHolding(j), s.workers) + Runs(s, j) + Freed(s, j) == Flag(j < s.head)
  }

  function Runs(s: State, j: nat): nat {
    if j < |s.runs| then s.runs[j] else 0
  }

  function Freed(s: State, j: nat): nat {
    if j < |s.freed| then s.freed[j] else 0
  }

  // A waiter that sleeps, or is about to, has something to wait for while the
  // pool is there; and one that has read a zero length can vouch for all jobs
  // pushed by then.
  ghost predicate WaiterInformed(s: State) {
    && (PoolThere(s) && (s.waiter.GoingToSleep? || s.waiter.Sleeping?) ==> s.queue != [] || s.working > 0)
    && (s.waiter.Testing? ==> s.waiter.seen <= s.head)
    && s.waited <= |s.runs| && forall j | 0 <= j < s.waited :: s.runs[j] == 1
  }

  // Each worker starts at most one job after `keepalive` was cleared.
  predicate MayStart(w: Worker) {
    w.Counting? || w.Pulling? || (w.Releasing? && w.job.JobNumber?)
  }

  ghost predicate LateStarts(s: State) {
    && |s.late| == |s.workers|
    && forall i {:trigger s.late[i]} | 0 <= i < |s.late| ::
         if s.keepalive then s.late[i] == 0 else s.late[i] + Flag(MayStart(s.workers[i])) <= 1
  }

  ghost predicate Inv(s: State) {
    && Counters(s) && NobodyGone(s) && TokenThere(s) && SleepersWoken(s) && Phases(s)
    && JobsConserved(s) && WaiterInformed(s) && LateStarts(s)
  }

  // ----- Every step keeps it -----

  function WakeChange(f: Feature, wake: Wake): int {
    if wake.Wakes? then Weight(f, Woken) - Weight(f, Asleep) else 0
  }

  // By how much a step changes a total.
  function Change(f: Feature, s: State, step: Step): int
    requires Enabled(s, step)
  {
    match step
    case TestLoop(i) => Weight(f, if s.keepalive then Entering else Exiting) - Weight(f, LoopTest)
    case TestFlag(i) => Weight(f, if s.flag then Past else Asleep) - Weight(f, s.workers[i])
    case WakeSpuriously(i) => WakeChange(f, Wakes(i))
    case TestAgain(i) => Weight(f, if s.keepalive then Counting else LoopTest) - Weight(f, Past)
    case Count(i) => Weight(f, Pulling) - Weight(f, Counting)
    case Take(i) => Weight(f, Releasing(Front(s.queue), |s.queue| > 1)) - Weight(f, Pulling)
    case Release(i, wake) => Weight(f, Running(s.workers[i].job)) - Weight(f, s.workers[i]) + WakeChange(f, wake)
    case RunJob(i) => Weight(f, Uncounting) - Weight(f, s.workers[i])
    case Uncount(i) => Weight(f, LoopTest) - Weight(f, Uncounting)
    case Exit(i) => Weight(f, Dead) - Weight(f, Exiting)
    case PostPushed(wake) => WakeChange(f, wake)
    case PostAll => Total(f, AllWoken(s.workers)) - Total(f, s.workers)
    case _ => 0
  }

  // Steps of a worker up to its pull, those behind it, and those of the others.
  predicate BeforePull(step: Step) {
    step.TestLoop? || step.TestFlag? || step.WakeSpuriously? || step.TestAgain? || step.Count? || step.Take?
  }

  predicate AfterPull(step: Step) {
    step.Release? || step.RunJob? || step.Uncount? || step.Exit?
  }

  predicate ByWorker(step: Step) {
    BeforePull(step) || AfterPull(step)
  }

  lemma Changed(f: Feature, s: State, step: Step)
    requires Enabled(s, step)
    ensures |Apply(s, step).workers| == |s.workers|
    ensures Total(f, Apply(s, step).workers) == Total(f, s.workers) + Change(f, s, step)
  {
    if BeforePull(step) {
      ChangedBeforePull(f, s, step);
    } else if AfterPull(step) {
      ChangedAfterPull(f, s, step);
    } else if step.PostPushed? && step.wake.Wakes? {
      TotalUpdate(f, s.workers, step.wake.i, Woken);
    }
  }

  lemma ChangedBeforePull(f: Feature, s: State, step: Step)
    requires Enabled(s, step) && BeforePull(step)
    ensures |Apply(s, step).workers| == |s.workers|
    ensures Total(f, Apply(s, step).workers) == Total(f, s.workers) + Change(f, s, step)
  {
    match step
    case TestLoop(i) => TotalUpdate(f, s.workers, i, if s.keepalive then Entering else Exiting);
    case TestFlag(i) => TotalUpdate(f, s.workers, i, if s.flag then Past else Asleep);
    case WakeSpuriously(i) => TotalUpdate(f, s.workers, i, Woken);
    case TestAgain(i) => TotalUpdate(f, s.workers, i, if s.keepalive then Counting else LoopTest);
    case Count(i) => TotalUpdate(f, s.workers, i, Pulling);
    case Take(i) => TotalUpdate(f, s.workers, i, Releasing(Front(s.queue), |s.queue| > 1));
  }

  lemma ChangedAfterPull(f: Feature, s: State, step: Step)
    requires Enabled(s, step) && AfterPull(step)
    ensures |Apply(s, step).workers| == |s.workers|
    ensures Total(f, Apply(s, step).workers) == Total(f, s.workers) + Change(f, s, step)
  {
    match step
    case Release(i, wake) => Released(f, s.workers, i, s.workers[i].job, wake);
    case RunJob(i) => TotalUpdate(f, s.workers, i, Uncounting);
    case Uncount(i) => TotalUpdate(f, s.workers, i, LoopTest);
    case Exit(i) => TotalUpdate(f, s.workers, i, Dead);
  }

  // The worker goes on to its job and perhaps wakes another one.
  lemma Released(f: Feature, ws: seq<Worker>, i: nat, job: Maybe, wake: Wake)
    requires i < |ws| && ws[i].Releasing? && (wake.Wakes? ==> wake.i < |ws| && ws[wake.i].Asleep?)
    ensures Total(f, AfterWake(ws[i := Running(job)], wake))
         == Total(f, ws) + Weight(f, Running(job)) - Weight(f, ws[i]) + WakeChange(f, wake)
  {
    TotalUpdate(f, ws, i, Running(job));
    if wake.Wakes? {
      TotalUpdate(f, ws[i := Running(job)], wake.i, Woken);
    }
  }

  lemma AtLeastOne(f: Feature, s: State, i: nat)
    requires i < |s.workers|
    ensures Total(f, s.workers) >= Weight(f, s.workers[i])
  {
    TotalUpdate(f, s.workers, i, s.workers[i]);
  }

  lemma WorkingKept(s: State, step: Step)
    requires s.working == Total(IsCounted, s.workers) && Enabled(s, step)
    ensures Apply(s, step).working == Total(IsCounted, Apply(s, step).workers)
  {
    if AfterPull(step) {
      WorkingKeptAfterPull(s, step);
    } else {
      Changed(IsCounted, s, step);
      TotalAllWoken(IsCounted, s.workers);
    }
  }

  lemma WorkingKeptAfterPull(s: State, step: Step)
    requires s.working == Total(IsCounted, s.workers) && Enabled(s, step) && AfterPull(step)
    ensures Apply(s, step).working == Total(IsCounted, Apply(s, step).workers)
  {
    ChangedAfterPull(IsCounted, s, step);
  }

  lemma AliveKept(s: State, step: Step)
    requires s.alive == Total(IsAlive, s.workers) && Enabled(s, step)
    ensures Apply(s, step).alive == Total(IsAlive, Apply(s, step).workers)
  {
    Changed(IsAlive, s, step);
    TotalAllWoken(IsAlive, s.workers);
  }

  lemma LockKept(s: State, step: Step)
    requires LockHeld(s) && Enabled(s, step)
    ensures LockHeld(Apply(s, step))
  {
    Changed(IsLocking, s, step);
    TotalAllWoken(IsLocking, s.workers);
    if step.Release? {
      AtLeastOne(IsLocking, s, step.i);
    }
  }

  lemma CountersKept(s: State, step: Step)
    requires Counters(s) && Enabled(s, step)
    ensures Counters(Apply(s, step))
  {
    WorkingKept(s, step);
    AliveKept(s, step);
    LockKept(s, step);
  }

  lemma {:induction false} SleepersAreAlive(ws: seq<Worker>)
    ensures Total(IsAsleep, ws) <= Total(IsAlive, ws)
  {
    if ws == [] {
    } else {
      SleepersAreAlive(ws[1..]);
    }
  }

  lemma NobodyGoneKept(s: State, step: Step)
    requires Counters(s) && NobodyGone(s) && Phases(s) && Enabled(s, step)
    ensures NobodyGone(Apply(s, step))
  {
    Changed(IsGone, s, step);
  }

  lemma TokenThereKept(s: State, step: Step)
    requires Counters(s) && TokenThere(s) && Phases(s) && Enabled(s, step)
    ensures TokenThere(Apply(s, step))
  {
    Changed(IsCarrying, s, step);
  }

  lemma SleepersWokenKept(s: State, step: Step)
    requires Counters(s) && SleepersWoken(s) && Phases(s) && Enabled(s, step)
    ensures SleepersWoken(Apply(s, step))
  {
    if ByWorker(step) {
      SleepersWokenByWorker(s, step);
    } else {
      Changed(IsAsleep, s, step);
      Changed(IsWoken, s, step);
      TotalAllWoken(IsAsleep, s.workers);
      SleepersAreAlive(s.workers);
    }
  }

  lemma SleepersWokenByWorker(s: State, step: Step)
    requires SleepersWoken(s) && Enabled(s, step) && ByWorker(step)
    ensures SleepersWoken(Apply(s, step))
  {
    Changed(IsAsleep, s, step);
    Changed(IsWoken, s, step);
  }

  lemma PhasesKept(s: State, step: Step)
    requires Counters(s) && Phases(s) && Enabled(s, step)
    ensures Phases(Apply(s, step))
  {
    if step.Exit? || step.Take? {
      AtLeastOne(IsAlive, s, step.i);
    }
  }

  lemma LawKept(s: State, step: Step, j: nat)
    requires QueueInOrder(s) && JobLaw(s, j) && Enabled(s, step)
    ensures JobLaw(Apply(s, step), j)
  {
    if BeforePull(step) {
      LawKeptBeforePull(s, step, j);
    } else if AfterPull(step) {
      LawKeptAfterPull(s, step, j);
    } else {
      TotalAllWoken(IsHolding(j), s.workers);
      Changed(IsHolding(j), s, step);
    }
  }

  lemma LawKeptBeforePull(s: State, step: Step, j: nat)
    requires QueueInOrder(s) && JobLaw(s, j) && Enabled(s, step) && BeforePull(step)
    ensures JobLaw(Apply(s, step), j)
  {
    ChangedBeforePull(IsHolding(j), s, step);
  }

  lemma LawKeptAfterPull(s: State, step: Step, j: nat)
    requires QueueInOrder(s) && JobLaw(s, j) && Enabled(s, step) && AfterPull(step)
    ensures JobLaw(Apply(s, step), j)
  {
    ChangedAfterPull(IsHolding(j), s, step);
    AtLeastOne(IsHolding(j), s, step.i);
  }

  lemma QueueKept(s: State, step: Step)
    requires Counters(s) && Phases(s) && QueueInOrder(s) && Enabled(s, step)
    ensures QueueInOrder(Apply(s, step))
  {
    if step.Take? || step.Enqueue? || step.ClearOne? {
    } else {
      QueueAlone(s, step);
    }
  }

  lemma QueueAlone(s: State, step: Step)
    requires Enabled(s, step) && !step.Take? && !step.Enqueue? && !step.ClearOne?
    ensures Apply(s, step).queue == s.queue && Apply(s, step).head == s.head
    ensures Apply(s, step).freed == s.freed && |Apply(s, step).runs| == |s.runs|
  {
  }

  lemma FreedKept(s: State, step: Step, j: nat)
    requires Counters(s) && Freed(s, j) == 0 && Enabled(s, step)
    ensures step.ClearOne? || Freed(Apply(s, step), j) == 0
  {
  }

  lemma JobsKept(s: State, step: Step)
    requires Counters(s) && Phases(s) && JobsConserved(s) && Enabled(s, step)
    ensures JobsConserved(Apply(s, step))
  {
    forall j: nat ensures JobLaw(Apply(s, step), j) {
      LawKept(s, step, j);
    }
    QueueKept(s, step);
    if !s.destroyer.Clearing? && !s.destroyer.Done? {
      forall j: nat ensures Freed(Apply(s, step), j) == 0 {
        FreedKept(s, step, j);
      }
    }
  }

  lemma WaiterKept(s: State, step: Step)
    requires Counters(s) && Phases(s) && JobsConserved(s) && WaiterInformed(s) && Enabled(s, step)
    ensures WaiterInformed(Apply(s, step))
  {
    if ByWorker(step) {
      WaiterKeptByWorker(s, step);
    } else if step.ReadWorking? {
      WaiterKeptByItself(s);
    } else {
      WaiterKeptByOthers(s, step);
    }
  }

  lemma WaiterKeptByWorker(s: State, step: Step)
    requires Counters(s) && JobsConserved(s) && WaiterInformed(s) && Enabled(s, step) && ByWorker(step)
    ensures WaiterInformed(Apply(s, step))
  {
    if step.RunJob? {
      RunOnce(s, step.i);
    } else {
      AtLeastOne(IsCounted, s, step.i);
    }
  }

  // A job that was vouched for is with nobody any more.
  lemma RunOnce(s: State, i: nat)
    requires JobsConserved(s) && WaiterInformed(s) && Enabled(s, RunJob(i))
    ensures WaiterInformed(Apply(s, RunJob(i)))
  {
    if s.workers[i].job.JobNumber? {
      assert JobLaw(s, s.workers[i].job.j);
      AtLeastOne(IsHolding(s.workers[i].job.j), s, i);
    }
  }

  lemma WaiterKeptByItself(s: State)
    requires Counters(s) && JobsConserved(s) && WaiterInformed(s) && Enabled(s, ReadWorking)
    ensures WaiterInformed(Apply(s, ReadWorking))
  {
    if s.working == 0 {
      forall j: nat | j < s.waiter.seen ensures s.runs[j] == 1 {
        assert JobLaw(s, j) && Freed(s, j) == 0;
        HoldersAreCounted(s.workers, j);
      }
    }
  }

  lemma WaiterKeptByOthers(s: State, step: Step)
    requires Counters(s) && Phases(s) && JobsConserved(s) && WaiterInformed(s) && Enabled(s, step)
    requires !ByWorker(step) && !step.ReadWorking?
    ensures WaiterInformed(Apply(s, step))
  {
  }

  lemma {:induction false} AllWokenAt(ws: seq<Worker>, i: nat)
    requires i < |ws|
    ensures AllWoken(ws)[i] == if ws[i].Asleep? then Woken else ws[i]
  {
    if i == 0 {
    } else {
      AllWokenAt(ws[1..], i - 1);
    }
  }

  lemma LateKept(s: State, step: Step)
    requires LateStarts(s) && Phases(s) && Enabled(s, step)
    ensures LateStarts(Apply(s, step))
  {
    if ByWorker(step) {
      LateKeptByWorker(s, step);
    } else if step.PostAll? {
      forall i: nat | i < |s.late| ensures MayStart(AllWoken(s.workers)[i]) == MayStart(s.workers[i]) {
        AllWokenAt(s.workers, i);
      }
    }
  }

  lemma LateKeptByWorker(s: State, step: Step)
    requires LateStarts(s) && Enabled(s, step) && ByWorker(step)
    ensures LateStarts(Apply(s, step))
  {
  }

  lemma InvKept(s: State, step: Step)
    requires Inv(s) && Enabled(s, step)
    ensures Inv(Apply(s, step))
  {
    CountersKept(s, step);
    NobodyGoneKept(s, step);
    TokenThereKept(s, step);
    SleepersWokenKept(s, step);
    PhasesKept(s, step);
    JobsKept(s, step);
    WaiterKept(s, step);
    LateKept(s, step);
  }
}
