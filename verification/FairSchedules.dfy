/** Fair schedules of the thread pool: whatever has happened so far, a scheduler that goes
    round makes a fair run of it. */
module FairSchedules {
  import opened ThreadPool
  import opened ThreadPoolRuns

  function Everyone(n: nat): (all: set<nat>)
    ensures forall i: nat :: i in all <==> i < n
  {
    if n == 0 then {} else Everyone(n - 1) + {n - 1}
  }

  /** A submission that finds no room: nothing changes. */
  function Idle(s: State): (step: Step)
    ensures Enabled(s, step) && Next(s, step) == s
  {
    AddTask(false, Everyone(|s.workers|))
  }

  /** Whose turn the n-th move is, among `all`. */
  function Whose(n: nat, all: nat): (k: nat)
    requires all > 0
    ensures k < all
  {
    if n == 0 then 0 else
      var k := Whose(n - 1, all);
      if k + 1 == all then 0 else k + 1
  }

  /** A scheduler that goes round: each worker and each client in turn gets its own step if
      it has one. It neither submits a task nor requests shutdown. */
  function Turn(s: State, n: nat): (step: Step)
    ensures Enabled(s, step) && Next(s, step).accepted == s.accepted
  {
    var all := |s.workers| + |s.clients|;
    if all == 0 then Idle(s) else
      var k := Whose(n, all);
      if k < |s.workers| then (if OwnStepEnabled(s, k) then OwnStep(s, k) else Idle(s))
      else if s.clients[k - |s.workers|].Recheck? then WaitCheck(k - |s.workers|)
      else Idle(s)
  }

  /** The state after the scheduler has made n moves from `s`. */
  function RoundRobin(s: State, n: nat): (t: State)
    ensures t.accepted == s.accepted
  {
    if n == 0 then s else
      var before := RoundRobin(s, n - 1);
      Next(before, Turn(before, n - 1))
  }

  /** Everyone has a turn again. */
  lemma {:induction false} TurnComes(i: nat, all: nat, k: nat) returns (j: nat)
    requires k < all
    ensures i <= j && Whose(j, all) == k
    decreases if Whose(i, all) <= k then k - Whose(i, all) else k + all - Whose(i, all)
  {
    if Whose(i, all) == k {
      j := i;
    } else {
      j := TurnComes(i + 1, all, k);
    }
  }

  /** The run that follows `run` for n steps and goes round from there. */
  function RunThen(run: nat -> State, n: nat, i: nat): State {
    if i <= n then run(i) else RoundRobin(run(n), i - n)
  }

  function SchedThen(run: nat -> State, sched: nat -> Step, n: nat, i: nat): Step {
    if i < n then sched(i) else Turn(RoundRobin(run(n), i - n), i - n)
  }

  ghost predicate Continues(run: nat -> State, sched: nat -> Step, n: nat, run': nat -> State, sched': nat -> Step) {
    forall i: nat :: run'(i) == RunThen(run, n, i) && sched'(i) == SchedThen(run, sched, n, i)
  }

  /** The scheduler makes its k-th move at moment n + k. */
  ghost predicate MoveTaken(run: nat -> State, sched: nat -> Step, n: nat, k: nat) {
    sched(n + k) == Turn(run(n + k), k)
  }

  ghost predicate GoesRound(run: nat -> State, sched: nat -> Step, n: nat) {
    forall k: nat :: MoveTaken(run, sched, n, k)
  }

  lemma {:induction false} ContinuesIsRun(run: nat -> State, sched: nat -> Step, threads: nat, callers: nat, n: nat,
      run': nat -> State, sched': nat -> Step)
    requires run(0) == Start(threads, callers) && forall i: nat :: i < n ==> StepTaken(run, sched, i)
    requires Continues(run, sched, n, run', sched')
    ensures IsRun(run', sched', threads, callers)
  {
    forall i: nat
      ensures StepTaken(run', sched', i)
    {
      if i < n {
        assert StepTaken(run, sched, i);
      } else {
        assert run'(i + 1) == RoundRobin(run(n), i + 1 - n);
      }
    }
  }

  lemma {:induction false} WorkerTurn(s: State, n: nat, w: nat)
    requires ActiveExact(s) && w < |s.workers| && Whose(n, |s.workers| + |s.clients|) == w
    ensures Turn(s, n) == Enter(w) || Turn(s, n) == Finish(w) || s.workers[w].Asleep? || s.workers[w].Exited?
  {
    if s.workers[w].Running? {
      CountWitness(s.workers, w, IsRunning);
    }
  }

  lemma {:induction false} FairToWorker(run: nat -> State, sched: nat -> Step, threads: nat, callers: nat, n: nat, w: nat, i: nat, k: nat)
    requires IsRun(run, sched, threads, callers) && w < threads && i <= n + k
    requires MoveTaken(run, sched, n, k) && Whose(k, threads + callers) == w
    ensures EventuallyRuns(run, sched, w, i)
  {
    var j := n + k;
    RunInv(run, sched, threads, callers, j);
    WorkerTurn(run(j), k, w);
    assert OwnStepAt(sched, w, j) || run(j).workers[w].Asleep? || run(j).workers[w].Exited?;
  }

  lemma {:induction false} FairToClient(run: nat -> State, sched: nat -> Step, threads: nat, callers: nat, n: nat, c: nat, i: nat, k: nat)
    requires IsRun(run, sched, threads, callers) && c < callers && i <= n + k
    requires MoveTaken(run, sched, n, k) && Whose(k, threads + callers) == threads + c
    ensures EventuallyChecks(run, sched, c, i)
  {
    var j := n + k;
    RunInv(run, sched, threads, callers, j);
    assert sched(j) == WaitCheck(c) || !run(j).clients[c].Recheck?;
  }

  lemma {:induction false} RoundIsFair(run: nat -> State, sched: nat -> Step, threads: nat, callers: nat, n: nat)
    requires IsRun(run, sched, threads, callers) && GoesRound(run, sched, n)
    ensures FairToWorkers(run, sched, threads) && FairToClients(run, sched, callers)
  {
    forall w: nat, i: nat | w < threads
      ensures EventuallyRuns(run, sched, w, i)
    {
      var k := TurnComes(i, threads + callers, w);
      FairToWorker(run, sched, threads, callers, n, w, i, k);
    }
    forall c: nat, i: nat | c < callers
      ensures EventuallyChecks(run, sched, c, i)
    {
      var k := TurnComes(i, threads + callers, threads + c);
      FairToClient(run, sched, threads, callers, n, c, i, k);
    }
  }

  lemma {:induction false} ContinuesWell(run: nat -> State, sched: nat -> Step, threads: nat, callers: nat, n: nat,
      run': nat -> State, sched': nat -> Step)
    requires run(0) == Start(threads, callers) && forall i: nat :: i < n ==> StepTaken(run, sched, i)
    requires Continues(run, sched, n, run', sched')
    ensures IsRun(run', sched', threads, callers)
    ensures FairToWorkers(run', sched', threads) && FairToClients(run', sched', callers) && NoNewTasks(run', n)
  {
    ContinuesIsRun(run, sched, threads, callers, n, run', sched');
    RoundIsFair(run', sched', threads, callers, n);
  }

  /** Whatever has happened so far can go on fairly and without further tasks: the
      assumptions about the scheduler never contradict a beginning of a run. */
  lemma {:induction false} FairContinuation(run: nat -> State, sched: nat -> Step, threads: nat, callers: nat, n: nat)
      returns (run': nat -> State, sched': nat -> Step)
    requires run(0) == Start(threads, callers) && forall i: nat :: i < n ==> StepTaken(run, sched, i)
    ensures IsRun(run', sched', threads, callers)
    ensures FairToWorkers(run', sched', threads) && FairToClients(run', sched', callers) && NoNewTasks(run', n)
    ensures forall i: nat :: i <= n ==> run'(i) == run(i)
    ensures forall i: nat :: i < n ==> sched'(i) == sched(i)
  {
    run' := (i: nat) => RunThen(run, n, i);
    sched' := (i: nat) => SchedThen(run, sched, n, i);
    ContinuesWell(run, sched, threads, callers, n, run', sched');
  }
}
