/** What holds in every state the pool can reach. */
module PoolSafety {
  import opened ThreadPool
  import opened PoolInvariants

  // `steps` can be taken one after the other from `s`.
  ghost predicate Follows(s: State, steps: seq<Step>)
    decreases |steps|
  {
    steps == [] || (Enabled(s, steps[0]) && Follows(Apply(s, steps[0]), steps[1..]))
  }

  function Outcome(s: State, steps: seq<Step>): State
    requires Follows(s, steps)
    decreases |steps|
  {
    if steps == [] then s else Outcome(Apply(s, steps[0]), steps[1..])
  }

  lemma FirstStep(s: State, a: Step, rest: seq<Step>)
    requires Enabled(s, a)
    ensures Follows(s, [a] + rest) <==> Follows(Apply(s, a), rest)
    ensures Follows(s, [a] + rest) ==> Outcome(s, [a] + rest) == Outcome(Apply(s, a), rest)
  {
    assert ([a] + rest)[1..] == rest;
  }

  lemma OneStep(s: State, a: Step)
    requires Enabled(s, a)
    ensures Follows(s, [a]) && Outcome(s, [a]) == Apply(s, a)
  {
    FirstStep(s, a, []);
    assert [a] == [a] + [];
  }

  lemma TwoSteps(s: State, a: Step, b: Step)
    requires Follows(s, [a, b])
    ensures Enabled(s, a) && Enabled(Apply(s, a), b) && Outcome(s, [a, b]) == Apply(Apply(s, a), b)
  {
    assert Enabled(s, [a, b][0]) && [a, b] == [a] + [b];
    FirstStep(s, a, [b]);
    assert Enabled(Apply(s, a), [b][0]);
    OneStep(Apply(s, a), b);
  }

  lemma {:induction false} AllTestingLoop(f: Feature, ws: seq<Worker>)
    requires forall i | 0 <= i < |ws| :: ws[i] == LoopTest
    ensures Weight(f, LoopTest) == 0 ==> Total(f, ws) == 0
    ensures Weight(f, LoopTest) == 1 ==> Total(f, ws) == |ws|
  {
    if ws == [] {
    } else {
      AllTestingLoop(f, ws[1..]);
    }
  }

  lemma InitialInv(s: State)
    requires Init(s)
    ensures Inv(s)
  {
    AllTestingLoop(IsCounted, s.workers);
    AllTestingLoop(IsAlive, s.workers);
    AllTestingLoop(IsLocking, s.workers);
    AllTestingLoop(IsGone, s.workers);
    AllTestingLoop(IsAsleep, s.workers);
    forall j: nat ensures JobLaw(s, j) {
      AllTestingLoop(IsHolding(j), s.workers);
    }
  }

  lemma {:induction false} InvAlongRun(s: State, steps: seq<Step>)
    requires Inv(s) && Follows(s, steps)
    ensures Inv(Outcome(s, steps))
    decreases |steps|
  {
    if steps == [] {
    } else {
      InvKept(s, steps[0]);
      InvAlongRun(Apply(s, steps[0]), steps[1..]);
    }
  }

  // The states of all runs, from any number of workers.
  ghost predicate Reached(s0: State, steps: seq<Step>, s: State) {
    Init(s0) && Follows(s0, steps) && s == Outcome(s0, steps)
  }

  lemma ReachedInv(s0: State, steps: seq<Step>, s: State)
    requires Reached(s0, steps, s)
    ensures Inv(s)
  {
    InitialInv(s0);
    InvAlongRun(s0, steps);
  }

  // ----- The semaphore loses nothing -----

  // With the queue lock free, a job in the queue has the flag up or a worker
  // between its wait and its pull.
  lemma NoStrandedJob(s0: State, steps: seq<Step>, s: State)
    requires Reached(s0, steps, s) && s.keepalive && !s.locked && s.queue != []
    ensures s.flag || exists i :: 0 <= i < |s.workers|
                                && (s.workers[i].Past? || s.workers[i].Counting? || s.workers[i].Pulling?)
  {
    ReachedInv(s0, steps, s);
    if !s.flag {
      SomeWorker(IsCarrying, s.workers);
      var i :| 0 <= i < |s.workers| && Weight(IsCarrying, s.workers[i]) > 0;
      AtLeastOne(IsLocking, s, i);
    }
  }

  // Whatever the queue lock: a worker that will post is counted in as well.
  lemma TokenSomewhere(s0: State, steps: seq<Step>, s: State)
    requires Reached(s0, steps, s) && s.keepalive && s.queue != []
    ensures s.flag || s.pusher.Posting? || exists i :: 0 <= i < |s.workers| && Weight(IsCarrying, s.workers[i]) == 1
  {
    ReachedInv(s0, steps, s);
    if !s.flag && !s.pusher.Posting? {
      SomeWorker(IsCarrying, s.workers);
    }
  }

  lemma NoLostWakeup(s0: State, steps: seq<Step>, s: State, sleeper: nat)
    requires Reached(s0, steps, s) && s.flag && sleeper < |s.workers| && s.workers[sleeper].Asleep?
    ensures exists i :: 0 <= i < |s.workers| && s.workers[i].Woken?
  {
    ReachedInv(s0, steps, s);
    AtLeastOne(IsAsleep, s, sleeper);
    SomeWorker(IsWoken, s.workers);
    var i :| 0 <= i < |s.workers| && Weight(IsWoken, s.workers[i]) > 0;
    assert s.workers[i].Woken?;
  }

  // The queue lock has one holder at a time.
  lemma OneInQueue(s0: State, steps: seq<Step>, s: State, i: nat)
    requires Reached(s0, steps, s) && i < |s.workers| && s.workers[i].Releasing?
    ensures s.locked && s.pusher.Ready? && forall k | 0 <= k < |s.workers| && k != i :: !s.workers[k].Releasing?
  {
    ReachedInv(s0, steps, s);
    AtLeastOne(IsLocking, s, i);
    forall k | 0 <= k < |s.workers| && k != i ensures !s.workers[k].Releasing? {
      AtLeastTwo(IsLocking, s.workers, i, k);
    }
  }

  lemma {:induction false} AtLeastTwo(f: Feature, ws: seq<Worker>, i: nat, k: nat)
    requires i < |ws| && k < |ws| && i != k
    ensures Total(f, ws) >= Weight(f, ws[i]) + Weight(f, ws[k])
  {
    if i > 0 && k > 0 {
      AtLeastTwo(f, ws[1..], i - 1, k - 1);
    } else {
      var m := if i > 0 then i else k;
      TotalUpdate(f, ws[1..], m - 1, LoopTest);
    }
  }

  // ----- The waiter -----

  // A waiter that sleeps unwoken has a job in the queue or a working thread.
  lemma WaiterNeverForgotten(s0: State, steps: seq<Step>, s: State)
    requires Reached(s0, steps, s) && PoolThere(s) && s.waiter.Sleeping?
    ensures s.queue != [] || exists i :: 0 <= i < |s.workers| && Weight(IsCounted, s.workers[i]) == 1
  {
    ReachedInv(s0, steps, s);
    if s.queue == [] {
      SomeWorker(IsCounted, s.workers);
    }
  }

  // `num_threads_working` counts the workers between increment and decrement,
  // and a job that has left the queue unfinished is with one of them.
  lemma WorkingIsExact(s0: State, steps: seq<Step>, s: State, j: nat)
    requires Reached(s0, steps, s)
    ensures s.working == Total(IsCounted, s.workers) && s.alive == Total(IsAlive, s.workers)
    ensures j < s.head && Runs(s, j) == 0 && Freed(s, j) == 0 ==>
              exists i :: 0 <= i < |s.workers| && HoldsJob(s.workers[i], j) && Weight(IsCounted, s.workers[i]) == 1
  {
    ReachedInv(s0, steps, s);
    assert JobLaw(s, j);
    if j < s.head && Runs(s, j) == 0 && Freed(s, j) == 0 {
      SomeWorker(IsHolding(j), s.workers);
      var i :| 0 <= i < |s.workers| && Weight(IsHolding(j), s.workers[i]) > 0;
      assert HoldsJob(s.workers[i], j) && Weight(IsCounted, s.workers[i]) == 1;
    }
  }

  // When the wait returns, all jobs pushed before it read a zero length have
  // been run, each once; and what it vouched for stays true.
  lemma WaitIsSound(s0: State, steps: seq<Step>, s: State, j: nat)
    requires Reached(s0, steps, s)
    ensures Enabled(s, ReadWorking) && s.working == 0 && j < s.waiter.seen ==> Runs(s, j) == 1
    ensures j < s.waited ==> Runs(s, j) == 1
  {
    ReachedInv(s0, steps, s);
    assert JobLaw(s, j);
    HoldersAreCounted(s.workers, j);
  }

  // What the waiter has seen is the number of jobs pushed when it read zero.
  lemma SeenAtZeroLength(s: State, step: Step)
    requires Enabled(s, step) && Apply(s, step).waiter.Testing?
    ensures if s.waiter.Testing? then Apply(s, step).waiter == s.waiter
            else step.ReadLength? && s.queue == [] && Apply(s, step).waiter.seen == |s.runs|
  {
  }

  // ----- Jobs -----

  // Jobs leave the queue in the order in which they were pushed.
  lemma FirstInFirstOut(s0: State, steps: seq<Step>, s: State, i: nat)
    requires Reached(s0, steps, s) && Enabled(s, Take(i))
    ensures s.queue != [] ==>
              Apply(s, Take(i)).workers[i].job == JobNumber(s.head) && Apply(s, Take(i)).head == s.head + 1
    ensures s.queue == [] ==> Apply(s, Take(i)).workers[i].job == NoJob && s.head == |s.runs|
  {
    ReachedInv(s0, steps, s);
  }

  // No job is run or freed twice, or both, or while it is still queued; and no
  // two workers have the same one.
  lemma AtMostOnce(s0: State, steps: seq<Step>, s: State, j: nat, i: nat, k: nat)
    requires Reached(s0, steps, s) && i < |s.workers| && k < |s.workers| && i != k
    ensures Runs(s, j) + Freed(s, j) <= 1 && (j in s.queue ==> Runs(s, j) + Freed(s, j) == 0)
    ensures HoldsJob(s.workers[i], j) ==>
              Runs(s, j) == 0 && Freed(s, j) == 0 && j !in s.queue && !HoldsJob(s.workers[k], j)
  {
    ReachedInv(s0, steps, s);
    assert JobLaw(s, j);
    AtLeastTwo(IsHolding(j), s.workers, i, k);
  }

  // A wake-up too many pulls nothing and changes nothing but the worker.
  lemma SurplusWakeupIsHarmless(s: State, i: nat)
    requires Enabled(s, Take(i)) && s.queue == []
    ensures Follows(s, [Take(i), Release(i, Nobody), RunJob(i)])
    ensures Outcome(s, [Take(i), Release(i, Nobody), RunJob(i)]) == s.(workers := s.workers[i := Uncounting])
  {
    var t := Apply(s, Take(i));
    var u := Apply(t, Release(i, Nobody));
    FirstStep(s, Take(i), [Release(i, Nobody), RunJob(i)]);
    FirstStep(t, Release(i, Nobody), [RunJob(i)]);
    OneStep(u, RunJob(i));
    assert Apply(u, RunJob(i)).workers == s.workers[i := Uncounting];
  }

  // ----- Shutdown -----

  // After `keepalive` is cleared a worker starts one more job at most; once no
  // thread is alive none takes a step; and when the pool has been taken apart,
  // every pushed job was either run once or freed once.
  lemma OrderlyShutdown(s0: State, steps: seq<Step>, s: State, i: nat, j: nat)
    requires Reached(s0, steps, s) && i < |s.workers|
    ensures i < |s.late| && s.late[i] <= 1 && (s.keepalive ==> s.late[i] == 0)
    ensures s.alive == 0 ==> s.workers[i].Dead?
    ensures s.destroyer.Clearing? || s.destroyer.Done? ==> s.workers[i].Dead?
    ensures s.destroyer.Done? && j < |s.runs| ==> s.queue == [] && Runs(s, j) + Freed(s, j) == 1
  {
    ReachedInv(s0, steps, s);
    if s.alive == 0 {
      NoWorker(IsAlive, s.workers, i);
      assert JobLaw(s, j);
      HoldersAreAlive(s.workers, j);
    }
  }

  lemma {:induction false} HoldersAreAlive(ws: seq<Worker>, j: nat)
    ensures Total(IsHolding(j), ws) <= Total(IsAlive, ws)
  {
    if ws == [] {
    } else {
      HoldersAreAlive(ws[1..], j);
    }
  }
}
