/** The thread pool as a monitor: one mutex, two condition variables, and a step for each
    stretch of code that runs while the mutex is held. A task is known by its ticket, the
    number of tasks accepted before it. */
module ThreadPool {

  /** Where a worker is. A woken worker has left its condition variable but has not got
      the mutex back yet. */
  datatype Worker = Ready | Asleep | Woken | Running(ticket: nat) | Exited

  /** Where a caller of Wait is. */
  datatype Client = Outside | Blocked | Recheck

  datatype State = State(
    queue: seq<nat>,
    activeWorkers: nat,
    shutdown: bool,
    workers: seq<Worker>,
    clients: seq<Client>,
    // What has happened so far: tickets issued, and tickets in order of start and of completion.
    accepted: nat,
    started: seq<nat>,
    completed: seq<nat>)

  /** `roused` is the set of threads that the condition variable picks to wake up. */
  datatype Step =
    | Enter(w: nat)
    | Finish(w: nat)
    | AddTask(slotOk: bool, roused: set<nat>)
    | WaitCheck(c: nat)
    | Destroy
    | SpuriousWorker(w: nat)
    | SpuriousClient(c: nat)

  function Start(threads: nat, callers: nat): State {
    State([], 0, false, seq(threads, _ => Ready), seq(callers, _ => Outside), 0, [], [])
  }

  // ----- The steps

  /** A signal wakes at least one of the sleeping workers, if there is any. */
  predicate SignalReaches(ws: seq<Worker>, roused: set<nat>) {
    (exists i :: 0 <= i < |ws| && ws[i].Asleep?) ==> exists i :: 0 <= i < |ws| && i in roused && ws[i].Asleep?
  }

  function Rouse(ws: seq<Worker>, roused: set<nat>): seq<Worker> {
    seq(|ws|, i requires 0 <= i < |ws| => if ws[i].Asleep? && i in roused then Woken else ws[i])
  }

  function RouseAll(ws: seq<Worker>): seq<Worker> {
    seq(|ws|, i requires 0 <= i < |ws| => if ws[i].Asleep? then Woken else ws[i])
  }

  function RouseClients(cs: seq<Client>): seq<Client> {
    seq(|cs|, i requires 0 <= i < |cs| => if cs[i].Blocked? then Recheck else cs[i])
  }

  predicate Enabled(s: State, step: Step) {
    match step
    case Enter(w) => w < |s.workers| && (s.workers[w].Ready? || s.workers[w].Woken?)
    case Finish(w) => w < |s.workers| && s.workers[w].Running? && s.activeWorkers > 0
    case AddTask(_, roused) => SignalReaches(s.workers, roused)
    case WaitCheck(c) => c < |s.clients| && !s.clients[c].Blocked?
    case Destroy => true
    case SpuriousWorker(w) => w < |s.workers| && s.workers[w].Asleep?
    case SpuriousClient(c) => c < |s.clients| && s.clients[c].Blocked?
  }

  /** The top of the worker loop: sleep, leave, or take the oldest task. */
  function EnterStep(s: State, w: nat): State
    requires w < |s.workers|
  {
    if s.queue == [] && !s.shutdown then s.(workers := s.workers[w := Asleep])
    else if s.queue == [] then s.(workers := s.workers[w := Exited])
    else s.(workers := s.workers[w := Running(s.queue[0])],
            queue := s.queue[1..],
            activeWorkers := s.activeWorkers + 1,
            started := s.started + [s.queue[0]])
  }

  /** The bottom of the worker loop, after a task has run. */
  function FinishStep(s: State, w: nat): State
    requires w < |s.workers| && s.workers[w].Running? && s.activeWorkers > 0
  {
    var done := s.(workers := s.workers[w := Ready],
                   activeWorkers := s.activeWorkers - 1,
                   completed := s.completed + [s.workers[w].ticket]);
    if done.queue == [] && done.activeWorkers == 0 then done.(clients := RouseClients(done.clients)) else done
  }

  function AddTaskStep(s: State, slotOk: bool, roused: set<nat>): State {
    if s.shutdown || !slotOk then s
    else s.(queue := s.queue + [s.accepted], accepted := s.accepted + 1, workers := Rouse(s.workers, roused))
  }

  /** Wait blocks while tasks are queued or running, and otherwise returns. */
  predicate MustWait(s: State) {
    s.queue != [] || s.activeWorkers > 0
  }

  function Next(s: State, step: Step): State
    requires Enabled(s, step)
  {
    match step
    case Enter(w) => EnterStep(s, w)
    case Finish(w) => FinishStep(s, w)
    case AddTask(slotOk, roused) => AddTaskStep(s, slotOk, roused)
    case WaitCheck(c) => s.(clients := s.clients[c := if MustWait(s) then Blocked else Outside])
    case Destroy => s.(shutdown := true, workers := RouseAll(s.workers))
    case SpuriousWorker(w) => s.(workers := s.workers[w := Woken])
    case SpuriousClient(c) => s.(clients := s.clients[c := Recheck])
  }

  function PendingTasks(s: State): nat {
    |s.queue| + s.activeWorkers
  }

  // ----- What each step does, on the fields of the state

  /** `t` differs from `s` in nothing but where workers and clients are. */
  ghost predicate SameWork(s: State, t: State) {
    && t.queue == s.queue && t.activeWorkers == s.activeWorkers && t.shutdown == s.shutdown
    && t.accepted == s.accepted && t.started == s.started && t.completed == s.completed
  }

  ghost predicate OtherWorkersStay(s: State, t: State, w: nat) {
    |t.workers| == |s.workers| && forall i :: 0 <= i < |s.workers| && i != w ==> t.workers[i] == s.workers[i]
  }

  ghost predicate OtherClientsStay(s: State, t: State, c: nat) {
    |t.clients| == |s.clients| && forall i :: 0 <= i < |s.clients| && i != c ==> t.clients[i] == s.clients[i]
  }

  /** Sleepers among `roused` are woken; nobody else moves. */
  ghost predicate ExactlyWoken(ws: seq<Worker>, ws': seq<Worker>, roused: set<nat>) {
    |ws'| == |ws| && forall i :: 0 <= i < |ws| ==>
      ws'[i] == if ws[i].Asleep? && i in roused then Woken else ws[i]
  }

  /** A worker at the top of its loop sleeps exactly when the queue is empty before shutdown,
      leaves exactly when it is empty after shutdown, and otherwise holds the oldest task. */
  lemma {:induction false} EnterDecides(s: State, w: nat)
    requires w < |s.workers| && (s.workers[w].Ready? || s.workers[w].Woken?)
    ensures Enabled(s, Enter(w))
    ensures var t := Next(s, Enter(w));
            && OtherWorkersStay(s, t, w) && t.clients == s.clients
            && (t.workers[w].Asleep? <==> |s.queue| == 0 && !s.shutdown)
            && (t.workers[w].Exited? <==> |s.queue| == 0 && s.shutdown)
            && (|s.queue| == 0 ==> SameWork(s, t))
            && (|s.queue| > 0 ==>
                  && t.workers[w] == Running(s.queue[0])
                  && [s.queue[0]] + t.queue == s.queue && t.started == s.started + [s.queue[0]]
                  && t.activeWorkers == s.activeWorkers + 1
                  && t.shutdown == s.shutdown && t.accepted == s.accepted && t.completed == s.completed)
  {
  }

  /** A worker that has run its task records it and goes round its loop; the callers of Wait
      are woken, all of them, exactly when no task is left. */
  lemma {:induction false} FinishRecords(s: State, w: nat)
    requires w < |s.workers| && s.workers[w].Running? && s.activeWorkers > 0
    ensures Enabled(s, Finish(w))
    ensures var t := Next(s, Finish(w));
            && OtherWorkersStay(s, t, w) && t.workers[w].Ready?
            && t.completed == s.completed + [s.workers[w].ticket] && t.activeWorkers == s.activeWorkers - 1
            && t.queue == s.queue && t.shutdown == s.shutdown && t.accepted == s.accepted && t.started == s.started
            && |t.clients| == |s.clients|
            && (|s.queue| == 0 && s.activeWorkers == 1 ==>
                  forall c :: 0 <= c < |s.clients| ==>
                    t.clients[c] == if s.clients[c].Blocked? then Recheck else s.clients[c])
            && (|s.queue| > 0 || s.activeWorkers > 1 ==> t.clients == s.clients)
  {
  }

  /** A task is accepted exactly when the pool is not shut down and the queue has a slot for
      it; it then stands last in the queue and, if anyone sleeps, someone is woken. */
  lemma {:induction false} AddTaskAccepts(s: State, slotOk: bool, roused: set<nat>)
    requires (exists i :: 0 <= i < |s.workers| && s.workers[i].Asleep?) ==>
               exists i :: 0 <= i < |s.workers| && i in roused && s.workers[i].Asleep?
    ensures Enabled(s, AddTask(slotOk, roused))
    ensures var t := Next(s, AddTask(slotOk, roused));
            && (t.accepted == s.accepted + 1 <==> !s.shutdown && slotOk)
            && (s.shutdown || !slotOk ==> t == s)
            && (!s.shutdown && slotOk ==>
                  && t.queue == s.queue + [s.accepted] && t.accepted == s.accepted + 1
                  && t.started == s.started && t.completed == s.completed
                  && t.activeWorkers == s.activeWorkers && t.shutdown == s.shutdown && t.clients == s.clients
                  && ExactlyWoken(s.workers, t.workers, roused)
                  && (SomeAsleep(s) ==> exists i :: 0 <= i < |s.workers| && s.workers[i].Asleep? && t.workers[i].Woken?))
  {
    if !s.shutdown && slotOk && SomeAsleep(s) {
      var i :| 0 <= i < |s.workers| && i in roused && s.workers[i].Asleep?;
      assert Next(s, AddTask(slotOk, roused)).workers[i].Woken?;
    }
  }

  /** A caller of Wait is outside afterwards exactly when no task is queued or running, and
      blocked otherwise; nothing else changes. */
  lemma {:induction false} WaitCheckDecides(s: State, c: nat)
    requires c < |s.clients| && !s.clients[c].Blocked?
    ensures Enabled(s, WaitCheck(c))
    ensures var t := Next(s, WaitCheck(c));
            && OtherClientsStay(s, t, c) && t.workers == s.workers && SameWork(s, t)
            && (t.clients[c].Outside? <==> |s.queue| == 0 && s.activeWorkers == 0)
            && (t.clients[c].Blocked? <==> |s.queue| > 0 || s.activeWorkers > 0)
  {
  }

  /** Destroy can always be called; it requests shutdown, leaves nobody asleep, and touches
      nothing else. */
  lemma {:induction false} DestroyRequests(s: State)
    ensures Enabled(s, Destroy)
    ensures var t := Next(s, Destroy);
            && t.shutdown && !SomeAsleep(t)
            && |t.workers| == |s.workers|
            && (forall i :: 0 <= i < |s.workers| ==>
                  t.workers[i] == if s.workers[i].Asleep? then Woken else s.workers[i])
            && t.queue == s.queue && t.activeWorkers == s.activeWorkers && t.clients == s.clients
            && t.accepted == s.accepted && t.started == s.started && t.completed == s.completed
  {
  }

  /** A thread that wakes up for no reason only gets to look again. */
  lemma {:induction false} SpuriousOnlyWakes(s: State, i: nat)
    ensures i < |s.workers| && s.workers[i].Asleep? ==>
              && Enabled(s, SpuriousWorker(i))
              && var t := Next(s, SpuriousWorker(i));
                 OtherWorkersStay(s, t, i) && t.workers[i].Woken? && t.clients == s.clients && SameWork(s, t)
    ensures i < |s.clients| && s.clients[i].Blocked? ==>
              && Enabled(s, SpuriousClient(i))
              && var t := Next(s, SpuriousClient(i));
                 OtherClientsStay(s, t, i) && t.clients[i].Recheck? && t.workers == s.workers && SameWork(s, t)
  {
  }

  /** Shutdown is requested by Destroy and by nothing else, and never taken back. */
  lemma {:induction false} OnlyDestroyShutsDown(s: State, step: Step)
    requires Enabled(s, step)
    ensures Next(s, step).shutdown <==> s.shutdown || step == Destroy
  {
  }

  // ----- Counting workers

  function Count(ws: seq<Worker>, p: Worker -> bool): (n: nat)
    ensures n <= |ws|
  {
    if ws == [] then 0 else (if p(ws[0]) then 1 else 0) + Count(ws[1..], p)
  }

  /** How many workers are running this ticket. */
  function Holders(ws: seq<Worker>, ticket: nat): nat {
    if ws == [] then 0 else (if ws[0] == Running(ticket) then 1 else 0) + Holders(ws[1..], ticket)
  }

  /** How often a ticket occurs in a history. */
  function Times(history: seq<nat>, ticket: nat): nat {
    if history == [] then 0
    else Times(history[..|history| - 1], ticket) + if history[|history| - 1] == ticket then 1 else 0
  }

  predicate IsRunning(w: Worker) { w.Running? }

  /** Awake but not running a task: about to look at the queue. */
  predicate IsAwake(w: Worker) { w.Ready? || w.Woken? }

  predicate IsPresent(w: Worker) { !w.Exited? }

  lemma {:induction false} CountUpdate(ws: seq<Worker>, i: nat, x: Worker, p: Worker -> bool)
    requires i < |ws|
    ensures Count(ws[i := x], p) == Count(ws, p) - (if p(ws[i]) then 1 else 0) + if p(x) then 1 else 0
  {
    if i == 0 {
      assert ws[i := x][1..] == ws[1..];
    } else {
      assert ws[i := x][1..] == ws[1..][i - 1 := x];
      CountUpdate(ws[1..], i - 1, x, p);
    }
  }

  lemma {:induction false} CountWitness(ws: seq<Worker>, i: nat, p: Worker -> bool)
    requires i < |ws| && p(ws[i])
    ensures Count(ws, p) > 0
  {
    if i > 0 {
      CountWitness(ws[1..], i - 1, p);
    }
  }

  lemma {:induction false} CountFinds(ws: seq<Worker>, p: Worker -> bool) returns (i: nat)
    requires Count(ws, p) > 0
    ensures i < |ws| && p(ws[i])
  {
    if p(ws[0]) {
      i := 0;
    } else {
      var j := CountFinds(ws[1..], p);
      i := j + 1;
    }
  }

  lemma {:induction false} HoldersUpdate(ws: seq<Worker>, i: nat, x: Worker, ticket: nat)
    requires i < |ws|
    ensures Holders(ws[i := x], ticket)
         == Holders(ws, ticket) - (if ws[i] == Running(ticket) then 1 else 0) + if x == Running(ticket) then 1 else 0
  {
    if i == 0 {
      assert ws[i := x][1..] == ws[1..];
    } else {
      assert ws[i := x][1..] == ws[1..][i - 1 := x];
      HoldersUpdate(ws[1..], i - 1, x, ticket);
    }
  }

  /** `ws'` is `ws` with some sleepers woken. */
  ghost predicate SomeWoken(ws: seq<Worker>, ws': seq<Worker>) {
    |ws'| == |ws| && forall i :: 0 <= i < |ws| ==> ws'[i] == ws[i] || (ws[i].Asleep? && ws'[i].Woken?)
  }

  lemma {:induction false} WokenCount(ws: seq<Worker>, ws': seq<Worker>, p: Worker -> bool)
    requires SomeWoken(ws, ws') && p(Asleep) == p(Woken)
    ensures Count(ws', p) == Count(ws, p)
  {
    if ws != [] {
      WokenCount(ws[1..], ws'[1..], p);
    }
  }

  lemma {:induction false} WokenHolders(ws: seq<Worker>, ws': seq<Worker>, ticket: nat)
    requires SomeWoken(ws, ws')
    ensures Holders(ws', ticket) == Holders(ws, ticket)
  {
    if ws != [] {
      WokenHolders(ws[1..], ws'[1..], ticket);
    }
  }

  lemma {:induction false} WokenAwake(ws: seq<Worker>, ws': seq<Worker>)
    requires SomeWoken(ws, ws')
    ensures Count(ws', IsAwake) >= Count(ws, IsAwake)
    ensures ws' != ws ==> Count(ws', IsAwake) > Count(ws, IsAwake)
  {
    if ws != [] {
      WokenAwake(ws[1..], ws'[1..]);
      assert ws == [ws[0]] + ws[1..] && ws' == [ws'[0]] + ws'[1..];
    }
  }

  // ----- The invariant

  function Tickets(n: nat): seq<nat> {
    seq(n, i requires 0 <= i < n => i)
  }

  ghost predicate SomeAsleep(s: State) {
    exists i :: 0 <= i < |s.workers| && s.workers[i].Asleep?
  }

  ghost predicate SomeBlocked(s: State) {
    exists i :: 0 <= i < |s.clients| && s.clients[i].Blocked?
  }

  ghost predicate SomeExited(s: State) {
    exists i :: 0 <= i < |s.workers| && s.workers[i].Exited?
  }

  /** `activeWorkers` counts the workers between dequeue and decrement. */
  ghost predicate ActiveExact(s: State) {
    && s.activeWorkers == Count(s.workers, IsRunning)
    && |s.started| == |s.completed| + s.activeWorkers
  }

  /** While a worker sleeps, the awake ones suffice for the queue. */
  ghost predicate NoLostWakeup(s: State) {
    && (SomeAsleep(s) ==> |s.queue| <= Count(s.workers, IsAwake))
    && (s.shutdown ==> !SomeAsleep(s))
  }

  /** A ticket has been taken up once if it has been started, and otherwise not at all. */
  ghost predicate Settled(s: State, ticket: nat) {
    Times(s.completed, ticket) + Holders(s.workers, ticket) == if ticket < |s.started| then 1 else 0
  }

  /** Tasks are started in order of acceptance; each started task is either running on
      exactly one worker or completed exactly once. */
  ghost predicate ExactlyOnce(s: State) {
    && s.started + s.queue == Tickets(s.accepted)
    && forall ticket: nat :: Settled(s, ticket)
  }

  /** A client is blocked only while there is something to wait for. */
  ghost predicate NoLostCompletion(s: State) {
    SomeBlocked(s) ==> MustWait(s)
  }

  /** Workers leave only after shutdown and only with the queue drained. */
  ghost predicate LeaveDrained(s: State) {
    SomeExited(s) ==> s.shutdown && s.queue == []
  }

  ghost predicate Inv(s: State) {
    ActiveExact(s) && NoLostWakeup(s) && ExactlyOnce(s) && NoLostCompletion(s) && LeaveDrained(s)
  }

  lemma {:induction false} StartInv(threads: nat, callers: nat)
    ensures Inv(Start(threads, callers))
    ensures var s := Start(threads, callers);
            && |s.workers| == threads && (forall i :: 0 <= i < threads ==> s.workers[i].Ready?)
            && |s.clients| == callers && (forall i :: 0 <= i < callers ==> s.clients[i].Outside?)
            && !s.shutdown && s.accepted == 0
  {
    var ws := Start(threads, callers).workers;
    forall ticket: nat
      ensures Settled(Start(threads, callers), ticket)
    {
      NoneRunning(ws, ticket);
    }
    NoneRunning(ws, 0);
  }

  lemma {:induction false} NoneRunning(ws: seq<Worker>, ticket: nat)
    requires forall i :: 0 <= i < |ws| ==> !ws[i].Running?
    ensures Count(ws, IsRunning) == 0 && Holders(ws, ticket) == 0
  {
    if ws != [] {
      NoneRunning(ws[1..], ticket);
    }
  }

  lemma {:induction false} WorkerUpdate(ws: seq<Worker>, w: nat, x: Worker)
    requires w < |ws|
    ensures Count(ws[w := x], IsRunning) == Count(ws, IsRunning) - (if ws[w].Running? then 1 else 0) + (if x.Running? then 1 else 0)
    ensures Count(ws[w := x], IsAwake) == Count(ws, IsAwake) - (if IsAwake(ws[w]) then 1 else 0) + (if IsAwake(x) then 1 else 0)
  {
    CountUpdate(ws, w, x, IsRunning);
    CountUpdate(ws, w, x, IsAwake);
  }

  lemma {:induction false} EnterKeepsTickets(s: State, w: nat)
    requires ExactlyOnce(s) && Enabled(s, Enter(w))
    ensures ExactlyOnce(EnterStep(s, w))
  {
    var t := EnterStep(s, w);
    if s.queue != [] {
      assert s.started + s.queue == t.started + t.queue;
      assert s.queue[0] == (s.started + s.queue)[|s.started|];
    }
    forall ticket: nat
      ensures Settled(t, ticket)
    {
      assert Settled(s, ticket);
      HoldersUpdate(s.workers, w, t.workers[w], ticket);
    }
  }

  lemma {:induction false} EnterKeeps(s: State, w: nat)
    requires Inv(s) && Enabled(s, Enter(w))
    ensures Inv(EnterStep(s, w))
  {
    EnterKeepsTickets(s, w);
    EnterKeepsCounts(s, w);
  }

  lemma {:induction false} EnterKeepsCounts(s: State, w: nat)
    requires ActiveExact(s) && NoLostWakeup(s) && NoLostCompletion(s) && LeaveDrained(s) && Enabled(s, Enter(w))
    ensures var t := EnterStep(s, w);
            ActiveExact(t) && NoLostWakeup(t) && NoLostCompletion(t) && LeaveDrained(t)
  {
    var t := EnterStep(s, w);
    WorkerUpdate(s.workers, w, t.workers[w]);
  }

  lemma {:induction false} FinishKeepsTickets(s: State, w: nat)
    requires ExactlyOnce(s) && Enabled(s, Finish(w))
    ensures ExactlyOnce(FinishStep(s, w))
  {
    var t := FinishStep(s, w);
    forall ticket: nat
      ensures Settled(t, ticket)
    {
      assert Settled(s, ticket);
      HoldersUpdate(s.workers, w, Ready, ticket);
      assert t.completed[..|t.completed| - 1] == s.completed;
    }
  }

  lemma {:induction false} FinishKeeps(s: State, w: nat)
    requires Inv(s) && Enabled(s, Finish(w))
    ensures Inv(FinishStep(s, w))
  {
    FinishKeepsTickets(s, w);
    FinishKeepsCounts(s, w);
  }

  lemma {:induction false} FinishKeepsCounts(s: State, w: nat)
    requires ActiveExact(s) && NoLostWakeup(s) && NoLostCompletion(s) && LeaveDrained(s) && Enabled(s, Finish(w))
    ensures var t := FinishStep(s, w);
            ActiveExact(t) && NoLostWakeup(t) && NoLostCompletion(t) && LeaveDrained(t)
  {
    WorkerUpdate(s.workers, w, Ready);
  }

  lemma {:induction false} WokenKeepsTickets(s: State, t: State)
    requires forall ticket: nat :: Settled(s, ticket)
    requires SomeWoken(s.workers, t.workers) && t.started == s.started && t.completed == s.completed
    ensures forall ticket: nat :: Settled(t, ticket)
  {
    forall ticket: nat
      ensures Settled(t, ticket)
    {
      assert Settled(s, ticket);
      WokenHolders(s.workers, t.workers, ticket);
    }
  }

  lemma {:induction false} AddTaskKeeps(s: State, slotOk: bool, roused: set<nat>)
    requires Inv(s) && Enabled(s, AddTask(slotOk, roused))
    ensures Inv(AddTaskStep(s, slotOk, roused))
  {
    if !s.shutdown && slotOk {
      var ws, ws' := s.workers, Rouse(s.workers, roused);
      assert SomeWoken(ws, ws');
      WokenCount(ws, ws', IsRunning);
      WokenAwake(ws, ws');
      WokenKeepsTickets(s, AddTaskStep(s, slotOk, roused));
      assert Tickets(s.accepted + 1) == Tickets(s.accepted) + [s.accepted];
      assert s.started + (s.queue + [s.accepted]) == (s.started + s.queue) + [s.accepted];
      if i :| 0 <= i < |ws| && i in roused && ws[i].Asleep? {
        assert ws'[i] != ws[i];
      }
    }
  }

  lemma {:induction false} DestroyKeeps(s: State)
    requires Inv(s)
    ensures Inv(Next(s, Destroy))
  {
    var ws, ws' := s.workers, RouseAll(s.workers);
    assert SomeWoken(ws, ws');
    WokenCount(ws, ws', IsRunning);
    WokenKeepsTickets(s, Next(s, Destroy));
  }

  lemma {:induction false} SpuriousKeeps(s: State, w: nat)
    requires Inv(s) && Enabled(s, SpuriousWorker(w))
    ensures Inv(Next(s, SpuriousWorker(w)))
  {
    WorkerUpdate(s.workers, w, Woken);
    WokenKeepsTickets(s, Next(s, SpuriousWorker(w)));
  }

  /** Every step keeps the invariant. */
  lemma {:induction false} StepKeepsInv(s: State, step: Step)
    requires Inv(s) && Enabled(s, step)
    ensures Inv(Next(s, step))
  {
    match step
    case Enter(w) => EnterKeeps(s, w);
    case Finish(w) => FinishKeeps(s, w);
    case AddTask(slotOk, roused) => AddTaskKeeps(s, slotOk, roused);
    case WaitCheck(c) => ClientsKeep(s, Next(s, step));
    case Destroy => DestroyKeeps(s);
    case SpuriousWorker(w) => SpuriousKeeps(s, w);
    case SpuriousClient(c) => ClientsKeep(s, Next(s, step));
  }

  lemma {:induction false} ClientsKeep(s: State, t: State)
    requires Inv(s) && t == s.(clients := t.clients)
    requires SomeBlocked(t) ==> SomeBlocked(s) || MustWait(s)
    ensures Inv(t)
  {
    WokenKeepsTickets(s, t);
  }

  // ----- What the invariant says of a single state

  /** Every task accepted so far has been completed, once. */
  ghost predicate AllCompleted(s: State) {
    forall ticket: nat :: ticket < s.accepted ==> Times(s.completed, ticket) == 1
  }

  lemma {:induction false} NoHolders(ws: seq<Worker>, ticket: nat)
    requires Count(ws, IsRunning) == 0
    ensures Holders(ws, ticket) == 0
  {
    if ws != [] {
      NoHolders(ws[1..], ticket);
    }
  }

  /** Tasks start in the order in which they were accepted. */
  lemma {:induction false} StartedInOrder(s: State)
    requires Inv(s)
    ensures s.started == Tickets(|s.started|) && |s.started| <= s.accepted
  {
    assert s.started == (s.started + s.queue)[..|s.started|];
  }

  /** The number that PendingTasks reports is that of accepted tasks not yet completed. */
  lemma {:induction false} PendingExact(s: State)
    requires Inv(s)
    ensures PendingTasks(s) == s.accepted - |s.completed|
    ensures PendingTasks(s) == 0 ==> AllCompleted(s)
  {
    assert |s.started + s.queue| == s.accepted;
    if PendingTasks(s) == 0 {
      forall ticket: nat | ticket < s.accepted
        ensures Times(s.completed, ticket) == 1
      {
        assert Settled(s, ticket);
        NoHolders(s.workers, ticket);
      }
    }
  }

  /** Wait returns only when every task accepted so far is completed. */
  lemma {:induction false} WaitReturnsDone(s: State, c: nat)
    requires Inv(s) && Enabled(s, WaitCheck(c)) && Next(s, WaitCheck(c)).clients[c].Outside?
    ensures AllCompleted(s)
  {
    PendingExact(s);
  }

  /** When every worker has left, so that Destroy's joins return, no task is lost. */
  lemma {:induction false} AllExitedDone(s: State)
    requires Inv(s) && |s.workers| > 0 && forall i :: 0 <= i < |s.workers| ==> s.workers[i].Exited?
    ensures s.shutdown && PendingTasks(s) == 0 && AllCompleted(s)
  {
    assert s.workers[0].Exited?;
    NoneRunning(s.workers, 0);
    PendingExact(s);
  }

  /** A worker that can make progress while a task is pending. */
  lemma {:induction false} SomeoneWorks(s: State) returns (w: nat)
    requires Inv(s) && |s.workers| > 0 && PendingTasks(s) > 0
    ensures w < |s.workers|
    ensures s.activeWorkers > 0 ==> s.workers[w].Running?
    ensures s.activeWorkers == 0 ==> s.queue != [] && IsAwake(s.workers[w])
  {
    if s.activeWorkers > 0 {
      w := CountFinds(s.workers, IsRunning);
    } else if SomeAsleep(s) {
      w := CountFinds(s.workers, IsAwake);
    } else {
      w := 0;
    }
  }

  /** Pending work never deadlocks: some worker can start or finish a task. */
  lemma {:induction false} NoDeadlock(s: State)
    requires Inv(s) && |s.workers| > 0 && PendingTasks(s) > 0
    ensures exists w: nat :: OwnStepEnabled(s, w) && Measure(Next(s, OwnStep(s, w))) < Measure(s)
  {
    var w := SomeoneWorks(s);
    assert OwnStepEnabled(s, w) && Measure(Next(s, OwnStep(s, w))) < Measure(s);
  }

  function OwnStep(s: State, w: nat): Step {
    if w < |s.workers| && s.workers[w].Running? then Finish(w) else Enter(w)
  }

  predicate OwnStepEnabled(s: State, w: nat) {
    Enabled(s, OwnStep(s, w))
  }

  /** Two for a queued task, one for a running one. */
  function Measure(s: State): nat {
    2 * |s.queue| + s.activeWorkers
  }

  /** Unless it accepts a task, no step adds to the queue or to the pending work, and a
      dequeue or a finish lowers the measure. */
  lemma {:induction false} StepMeasure(s: State, step: Step)
    requires Enabled(s, step) && Next(s, step).accepted == s.accepted
    ensures var t := Next(s, step); |t.queue| <= |s.queue| && PendingTasks(t) <= PendingTasks(s)
    ensures step.Finish? || (step.Enter? && s.queue != []) ==> Measure(Next(s, step)) < Measure(s)
  {
  }
}
