/** Runs of the thread pool: what holds at every moment, and what happens in the end if the
    scheduler is fair. */
module ThreadPoolRuns {
  import opened ThreadPool

  ghost predicate IsRun(run: nat -> State, sched: nat -> Step, threads: nat, callers: nat) {
    && run(0) == Start(threads, callers)
    && forall i: nat :: StepTaken(run, sched, i)
  }

  ghost predicate StepTaken(run: nat -> State, sched: nat -> Step, i: nat) {
    Enabled(run(i), sched(i)) && run(i + 1) == Next(run(i), sched(i))
  }

  /** The invariant holds at every moment of every run. */
  lemma {:induction false} RunInv(run: nat -> State, sched: nat -> Step, threads: nat, callers: nat, i: nat)
    requires IsRun(run, sched, threads, callers)
    ensures Inv(run(i)) && |run(i).workers| == threads && |run(i).clients| == callers
  {
    if i == 0 {
      StartInv(threads, callers);
    } else {
      RunInv(run, sched, threads, callers, i - 1);
      assert StepTaken(run, sched, i - 1);
      StepKeepsInv(run(i - 1), sched(i - 1));
    }
  }

  ghost predicate NoNewTasks(run: nat -> State, i: nat) {
    forall j: nat :: i <= j ==> run(j).accepted == run(i).accepted
  }

  ghost predicate OwnStepAt(sched: nat -> Step, w: nat, j: nat) {
    sched(j) == Enter(w) || sched(j) == Finish(w)
  }

  /** From moment i on, worker `w` gets the processor and the mutex at some point, unless
      it has nothing to run for by then. */
  ghost predicate EventuallyRuns(run: nat -> State, sched: nat -> Step, w: nat, i: nat) {
    exists j: nat :: i <= j && (OwnStepAt(sched, w, j) ||
      (w < |run(j).workers| && (run(j).workers[w].Asleep? || run(j).workers[w].Exited?)))
  }

  ghost predicate FairToWorkers(run: nat -> State, sched: nat -> Step, threads: nat) {
    forall w: nat, i: nat :: w < threads ==> EventuallyRuns(run, sched, w, i)
  }

  /** Without new tasks, pending work and queue only shrink. */
  lemma {:induction false} OnlyShrinks(run: nat -> State, sched: nat -> Step, threads: nat, callers: nat, i: nat, j: nat)
    requires IsRun(run, sched, threads, callers) && NoNewTasks(run, i) && i <= j
    ensures |run(j).queue| <= |run(i).queue| && PendingTasks(run(j)) <= PendingTasks(run(i))
  {
    if i < j {
      OnlyShrinks(run, sched, threads, callers, i, j - 1);
      assert StepTaken(run, sched, j - 1);
      StepMeasure(run(j - 1), sched(j - 1));
    }
  }

  /** Nobody else's step moves a worker that is awake or running. */
  lemma {:induction false} OthersLeaveAlone(s: State, step: Step, w: nat)
    requires Enabled(s, step) && step != Enter(w) && step != Finish(w)
    requires w < |s.workers| && (s.workers[w].Running? || IsAwake(s.workers[w]))
    ensures var t := Next(s, step);
            |t.workers| == |s.workers| && t.workers[w] == s.workers[w]
  {
  }

  /** The next step that a worker takes itself, when it is awake or running. */
  lemma {:induction false} NextOwnStep(run: nat -> State, sched: nat -> Step, threads: nat, callers: nat, w: nat, i: nat) returns (m: nat)
    requires IsRun(run, sched, threads, callers) && FairToWorkers(run, sched, threads)
    requires w < threads && |run(i).workers| == threads
    requires run(i).workers[w].Running? || IsAwake(run(i).workers[w])
    ensures i <= m && OwnStepAt(sched, w, m)
    ensures |run(m).workers| == threads && run(m).workers[w] == run(i).workers[w]
  {
    assert EventuallyRuns(run, sched, w, i);
    var j: nat :| i <= j && (OwnStepAt(sched, w, j) ||
      (w < |run(j).workers| && (run(j).workers[w].Asleep? || run(j).workers[w].Exited?)));
    m := i;
    while m < j && !OwnStepAt(sched, w, m)
      invariant i <= m <= j
      invariant |run(m).workers| == threads && run(m).workers[w] == run(i).workers[w]
    {
      assert StepTaken(run, sched, m);
      OthersLeaveAlone(run(m), sched(m), w);
      m := m + 1;
    }
  }

  /** Pending work is eventually taken further. */
  lemma {:induction false} Advances(run: nat -> State, sched: nat -> Step, threads: nat, callers: nat, i: nat) returns (j: nat)
    requires IsRun(run, sched, threads, callers) && threads > 0 && FairToWorkers(run, sched, threads)
    requires NoNewTasks(run, i) && PendingTasks(run(i)) > 0
    ensures i < j && Measure(run(j)) < Measure(run(i))
  {
    RunInv(run, sched, threads, callers, i);
    var w := SomeoneWorks(run(i));
    var m := NextOwnStep(run, sched, threads, callers, w, i);
    OnlyShrinks(run, sched, threads, callers, i, m);
    assert StepTaken(run, sched, m);
    StepMeasure(run(m), sched(m));
    j := m + 1;
  }

  /** Under a fair scheduler, once no more tasks come in, every accepted task completes. */
  lemma {:induction false} Drains(run: nat -> State, sched: nat -> Step, threads: nat, callers: nat, i: nat) returns (j: nat)
    requires IsRun(run, sched, threads, callers) && threads > 0 && FairToWorkers(run, sched, threads)
    requires NoNewTasks(run, i)
    ensures i <= j && PendingTasks(run(j)) == 0 && AllCompleted(run(j))
    decreases Measure(run(i))
  {
    if PendingTasks(run(i)) == 0 {
      j := i;
      RunInv(run, sched, threads, callers, j);
      PendingExact(run(j));
    } else {
      var m := Advances(run, sched, threads, callers, i);
      j := Drains(run, sched, threads, callers, m);
    }
  }

  // ----- Every accepted task completes, however many come after it

  /** What is left to do before this ticket is started. */
  function Ahead(s: State, ticket: nat): nat {
    if ticket < |s.started| then 0 else 2 * (ticket + 1 - |s.started|) + s.activeWorkers
  }

  lemma {:induction false} AheadStep(s: State, step: Step, ticket: nat)
    requires Enabled(s, step)
    ensures Ahead(Next(s, step), ticket) <= Ahead(s, ticket) && s.accepted <= Next(s, step).accepted
    ensures Ahead(s, ticket) > 0 && (step.Finish? || (step.Enter? && s.queue != [])) ==>
              Ahead(Next(s, step), ticket) < Ahead(s, ticket)
  {
  }

  lemma {:induction false} AheadShrinks(run: nat -> State, sched: nat -> Step, threads: nat, callers: nat, ticket: nat, i: nat, j: nat)
    requires IsRun(run, sched, threads, callers) && i <= j
    ensures Ahead(run(j), ticket) <= Ahead(run(i), ticket) && run(i).accepted <= run(j).accepted
  {
    if i < j {
      AheadShrinks(run, sched, threads, callers, ticket, i, j - 1);
      assert StepTaken(run, sched, j - 1);
      AheadStep(run(j - 1), sched(j - 1), ticket);
    }
  }

  /** A ticket that is not started stands in the queue, so the queue is not empty. */
  lemma {:induction false} NotStartedQueued(s: State, ticket: nat)
    requires Inv(s) && |s.started| <= ticket < s.accepted
    ensures s.queue != [] && ticket in s.queue && PendingTasks(s) > 0
  {
    assert (s.started + s.queue)[ticket] == ticket;
  }

  /** Every accepted task is started some time. */
  lemma {:induction false} TaskStarts(run: nat -> State, sched: nat -> Step, threads: nat, callers: nat, ticket: nat, i: nat) returns (j: nat)
    requires IsRun(run, sched, threads, callers) && threads > 0 && FairToWorkers(run, sched, threads)
    requires ticket < run(i).accepted
    ensures i <= j && ticket < |run(j).started|
    decreases Ahead(run(i), ticket)
  {
    if ticket < |run(i).started| {
      j := i;
    } else {
      RunInv(run, sched, threads, callers, i);
      NotStartedQueued(run(i), ticket);
      var w := SomeoneWorks(run(i));
      var m := NextOwnStep(run, sched, threads, callers, w, i);
      AheadShrinks(run, sched, threads, callers, ticket, i, m);
      if ticket < |run(m).started| {
        j := m;
      } else {
        RunInv(run, sched, threads, callers, m);
        NotStartedQueued(run(m), ticket);
        assert StepTaken(run, sched, m);
        AheadStep(run(m), sched(m), ticket);
        j := TaskStarts(run, sched, threads, callers, ticket, m + 1);
      }
    }
  }

  lemma {:induction false} HolderFound(ws: seq<Worker>, ticket: nat) returns (w: nat)
    requires Holders(ws, ticket) > 0
    ensures w < |ws| && ws[w] == Running(ticket)
  {
    if ws[0] == Running(ticket) {
      w := 0;
    } else {
      var v := HolderFound(ws[1..], ticket);
      w := v + 1;
    }
  }

  /** A worker that finishes a task has completed it, once. */
  lemma {:induction false} FinishedOnce(s: State, w: nat)
    requires Inv(s) && Enabled(s, Finish(w))
    ensures Times(Next(s, Finish(w)).completed, s.workers[w].ticket) == 1
  {
    FinishKeepsTickets(s, w);
    var t, ticket := FinishStep(s, w), s.workers[w].ticket;
    assert Settled(t, ticket);
    assert t.completed[|t.completed| - 1] == ticket;
  }

  /** Every accepted task is completed exactly once, even if tasks never stop coming in. */
  lemma {:induction false} TaskCompletes(run: nat -> State, sched: nat -> Step, threads: nat, callers: nat, ticket: nat, i: nat) returns (j: nat)
    requires IsRun(run, sched, threads, callers) && threads > 0 && FairToWorkers(run, sched, threads)
    requires ticket < run(i).accepted
    ensures i <= j && Times(run(j).completed, ticket) == 1
  {
    j := TaskStarts(run, sched, threads, callers, ticket, i);
    RunInv(run, sched, threads, callers, j);
    assert Settled(run(j), ticket);
    if Times(run(j).completed, ticket) == 0 {
      var w := HolderFound(run(j).workers, ticket);
      var m := NextOwnStep(run, sched, threads, callers, w, j);
      RunInv(run, sched, threads, callers, m);
      assert StepTaken(run, sched, m);
      FinishedOnce(run(m), w);
      j := m + 1;
    }
  }

  /** A task submitted before shutdown, while the queue has room, gets the next ticket, and
      that ticket is later completed exactly once. */
  lemma {:induction false} SubmittedCompletes(run: nat -> State, sched: nat -> Step, threads: nat, callers: nat, i: nat, roused: set<nat>) returns (j: nat)
    requires IsRun(run, sched, threads, callers) && threads > 0 && FairToWorkers(run, sched, threads)
    requires sched(i) == AddTask(true, roused) && !run(i).shutdown
    ensures run(i + 1).accepted == run(i).accepted + 1
    ensures i < j && Times(run(j).completed, run(i).accepted) == 1
  {
    assert StepTaken(run, sched, i);
    j := TaskCompletes(run, sched, threads, callers, run(i).accepted, i + 1);
  }

  // ----- Wait comes back

  ghost predicate EventuallyChecks(run: nat -> State, sched: nat -> Step, c: nat, i: nat) {
    exists j: nat :: i <= j && (sched(j) == WaitCheck(c) || (c < |run(j).clients| && !run(j).clients[c].Recheck?))
  }

  ghost predicate FairToClients(run: nat -> State, sched: nat -> Step, callers: nat) {
    forall c: nat, i: nat :: c < callers ==> EventuallyChecks(run, sched, c, i)
  }

  /** Client `c` returns from Wait at moment j: it checks, and is outside afterwards. */
  ghost predicate WaitReturnsAt(run: nat -> State, sched: nat -> Step, c: nat, j: nat) {
    sched(j) == WaitCheck(c) && c < |run(j + 1).clients| && run(j + 1).clients[c].Outside?
  }

  lemma {:induction false} ClientMoves(s: State, step: Step, c: nat)
    requires Enabled(s, step) && c < |s.clients| && !s.clients[c].Outside?
    ensures |Next(s, step).clients| == |s.clients|
    ensures step != WaitCheck(c) ==> !Next(s, step).clients[c].Outside?
  {
  }

  /** Between being inside Wait and being outside again lies a return. */
  lemma {:induction false} ReturnsBetween(run: nat -> State, sched: nat -> Step, threads: nat, callers: nat, c: nat, i: nat, j: nat) returns (m: nat)
    requires IsRun(run, sched, threads, callers) && i <= j && c < callers
    requires |run(i).clients| == callers && !run(i).clients[c].Outside?
    requires |run(j).clients| == callers && run(j).clients[c].Outside?
    ensures i <= m < j && WaitReturnsAt(run, sched, c, m)
  {
    m := i;
    while m < j && !WaitReturnsAt(run, sched, c, m)
      invariant i <= m <= j && |run(m).clients| == callers && !run(m).clients[c].Outside?
    {
      assert StepTaken(run, sched, m);
      ClientMoves(run(m), sched(m), c);
      m := m + 1;
    }
  }

  /** A caller of Wait is not left behind: once no more tasks come in, it returns. */
  lemma {:induction false} WaitReturns(run: nat -> State, sched: nat -> Step, threads: nat, callers: nat, c: nat, i: nat) returns (m: nat)
    requires IsRun(run, sched, threads, callers) && threads > 0 && c < callers
    requires FairToWorkers(run, sched, threads) && FairToClients(run, sched, callers)
    requires NoNewTasks(run, i) && |run(i).clients| == callers && !run(i).clients[c].Outside?
    ensures i <= m && WaitReturnsAt(run, sched, c, m) && AllCompleted(run(m))
    ensures sched(m) == WaitCheck(c) && |run(m + 1).clients| == callers && run(m + 1).clients[c].Outside?
  {
    var j := Drains(run, sched, threads, callers, i);
    RunInv(run, sched, threads, callers, j);
    if run(j).clients[c].Outside? {
      m := ReturnsBetween(run, sched, threads, callers, c, i, j);
    } else {
      assert EventuallyChecks(run, sched, c, j);
      var k: nat :| j <= k && (sched(k) == WaitCheck(c) || (c < |run(k).clients| && !run(k).clients[c].Recheck?));
      RunInv(run, sched, threads, callers, k);
      OnlyShrinks(run, sched, threads, callers, i, j);
      OnlyShrinks(run, sched, threads, callers, j, k);
      if sched(k) == WaitCheck(c) {
        m := k;
        assert StepTaken(run, sched, m);
      } else {
        m := ReturnsBetween(run, sched, threads, callers, c, j, k);
      }
    }
    RunInv(run, sched, threads, callers, m);
    RunInv(run, sched, threads, callers, m + 1);
    assert StepTaken(run, sched, m);
    WaitReturnsDone(run(m), c);
  }

  // ----- Destroy comes back

  /** After shutdown no step accepts a task, undoes the shutdown or brings a worker back. */
  lemma {:induction false} ShutdownStep(s: State, step: Step)
    requires Enabled(s, step) && s.shutdown
    ensures var t := Next(s, step);
            && t.shutdown && t.accepted == s.accepted
            && Count(t.workers, IsPresent) <= Count(s.workers, IsPresent)
            && (step.Enter? && s.queue == [] ==> Count(t.workers, IsPresent) < Count(s.workers, IsPresent))
  {
    match step
    case Enter(w) => CountUpdate(s.workers, w, Next(s, step).workers[w], IsPresent);
    case Finish(w) => CountUpdate(s.workers, w, Ready, IsPresent);
    case AddTask(_, _) =>
    case WaitCheck(_) =>
    case Destroy => WokenCount(s.workers, RouseAll(s.workers), IsPresent);
    case SpuriousWorker(w) => CountUpdate(s.workers, w, Woken, IsPresent);
    case SpuriousClient(_) =>
  }

  lemma {:induction false} ShutdownLasts(run: nat -> State, sched: nat -> Step, threads: nat, callers: nat, i: nat, j: nat)
    requires IsRun(run, sched, threads, callers) && run(i).shutdown && i <= j
    ensures run(j).shutdown && run(j).accepted == run(i).accepted
    ensures Count(run(j).workers, IsPresent) <= Count(run(i).workers, IsPresent)
  {
    if i < j {
      ShutdownLasts(run, sched, threads, callers, i, j - 1);
      assert StepTaken(run, sched, j - 1);
      ShutdownStep(run(j - 1), sched(j - 1));
    }
  }

  ghost predicate AllExited(s: State) {
    forall i :: 0 <= i < |s.workers| ==> s.workers[i].Exited?
  }

  /** After shutdown every worker leaves, so that Destroy's joins return, and by then every
      accepted task is completed. */
  lemma {:induction false} ShutdownCompletes(run: nat -> State, sched: nat -> Step, threads: nat, callers: nat, i: nat) returns (j: nat)
    requires IsRun(run, sched, threads, callers) && threads > 0 && FairToWorkers(run, sched, threads)
    requires run(i).shutdown
    ensures i <= j && AllExited(run(j)) && AllCompleted(run(j))
    decreases Count(run(i).workers, IsPresent)
  {
    forall k: nat | i <= k
      ensures run(k).accepted == run(i).accepted
    {
      ShutdownLasts(run, sched, threads, callers, i, k);
    }
    var d := Drains(run, sched, threads, callers, i);
    ShutdownLasts(run, sched, threads, callers, i, d);
    RunInv(run, sched, threads, callers, d);
    if AllExited(run(d)) {
      j := d;
    } else {
      var w :| 0 <= w < threads && !run(d).workers[w].Exited?;
      if run(d).workers[w].Running? {
        CountWitness(run(d).workers, w, IsRunning);
      }
      var m := NextOwnStep(run, sched, threads, callers, w, d);
      ShutdownLasts(run, sched, threads, callers, d, m);
      OnlyShrinks(run, sched, threads, callers, d, m);
      assert StepTaken(run, sched, m);
      ShutdownStep(run(m), sched(m));
      j := ShutdownCompletes(run, sched, threads, callers, m + 1);
    }
  }

  /** After a call of Destroy every worker leaves, so that its joins return, and every task
      accepted before the call is completed. */
  lemma {:induction false} DestroyCompletes(run: nat -> State, sched: nat -> Step, threads: nat, callers: nat, i: nat) returns (j: nat)
    requires IsRun(run, sched, threads, callers) && threads > 0 && FairToWorkers(run, sched, threads)
    requires sched(i) == Destroy
    ensures i < j && AllExited(run(j)) && AllCompleted(run(j))
    ensures run(j).accepted == run(i).accepted
  {
    assert StepTaken(run, sched, i);
    j := ShutdownCompletes(run, sched, threads, callers, i + 1);
    ShutdownLasts(run, sched, threads, callers, i + 1, j);
  }
}
