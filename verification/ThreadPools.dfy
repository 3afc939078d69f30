/** The two thread pools as one protocol: workers that wait on a condition variable, threads that
    add tasks, and one that destroys the pool. They differ in whether a worker told to stop first
    empties the queue, and in whether the queue is bounded and closed. Every pthread call, every
    test and every update between them is a step of its own. */
module ThreadPools {
  import opened Options
  import opened Counting

  /** Draining: the pool of NB666. Stopping: the pool of the gateway, with its queue capacity. */
  datatype Kind = Draining | Stopping(capacity: nat)

  type Task = nat

  /** A worker: about to lock; holding the lock at the loop test; asleep on the condition variable;
      woken and about to lock again; past the loop with the lock; holding the lock with the task
      taken out; running it; holding the lock on its way out; gone. Tasks are named by the order
      in which they were taken. */
  datatype Worker =
    | Entering | Testing | Sleeping | Waking | Taking | Leaving(k: nat) | Running(k: nat) | Exiting | Exited

  /** A thread that adds tasks: outside; holding the lock with a task; about to signal; about to unlock. */
  datatype Adder = Outside | Adding(task: Task) | Signalling | Unlocking

  datatype Destroyer = NotCalled | Closing | Broadcasting | Releasing | Joining | Destroyed

  datatype Holder = TheWorker(w: nat) | TheAdder(a: nat) | TheDestroyer

  datatype State = State(
    lock: Option<Holder>,
    queue: seq<Task>,
    shutdown: bool,
    workers: seq<Worker>,
    adders: seq<Adder>,
    destroyer: Destroyer,
    accepted: seq<Task>,       // every task ever put in the queue, in order
    started: seq<Task>,        // those taken out again, in order
    executed: multiset<nat>,   // the numbers, in `started`, of those that have run
    acceptedBefore: nat,       // |accepted| when shutdown was set
    leftBehind: nat,           // |queue| when shutdown was set
    acceptedAtExit: nat,       // |accepted| when a worker last decided to leave
    offered: seq<Task>,        // every task a call to add came in with, in the order of the locking
    refused: seq<Task>         // those that a call turned down
  )

  /** What happens next: a thread moves on, a sleeper wakes without a signal, or an adder moves on,
      with the task it brings and the sleeper its signal would wake. */
  datatype Event = WorkerMoves(w: nat) | WakesAlone(w: nat) | AdderMoves(a: nat, task: Task, pick: nat) | DestroyerMoves

  function Initial(workers: nat, adders: nat): State {
    State(None, [], false, seq(workers, _ => Entering), seq(adders, _ => Outside), NotCalled,
          [], [], multiset{}, 0, 0, 0, [], [])
  }

  // ---------- steps ----------

  /** The test after the waiting loop that makes a worker leave. */
  predicate MustExit(s: State, kind: Kind) {
    s.shutdown && (kind.Stopping? || s.queue == [])
  }

  function WorkerStep(s: State, kind: Kind, w: nat): State
    requires w < |s.workers|
  {
    match s.workers[w]
    case Entering => if s.lock.Some? then s else s.(lock := Some(TheWorker(w)), workers := s.workers[w := Testing])
    case Waking => if s.lock.Some? then s else s.(lock := Some(TheWorker(w)), workers := s.workers[w := Testing])
    case Testing =>
      if s.queue == [] && !s.shutdown then s.(lock := None, workers := s.workers[w := Sleeping])
      else s.(workers := s.workers[w := Taking])
    case Sleeping => s
    case Taking =>
      if MustExit(s, kind) then s.(acceptedAtExit := |s.accepted|, workers := s.workers[w := Exiting])
      else if s.queue == [] then s
      else s.(queue := s.queue[1..], started := s.started + [s.queue[0]], workers := s.workers[w := Leaving(|s.started|)])
    case Leaving(k) => s.(lock := None, workers := s.workers[w := Running(k)])
    case Running(k) => s.(executed := s.executed + multiset{k}, workers := s.workers[w := Entering])
    case Exiting => s.(lock := None, workers := s.workers[w := Exited])
    case Exited => s
  }

  function Woken(p: Worker): Worker {
    if p.Sleeping? then Waking else p
  }

  /** Whom a signal wakes: the sleeper picked, or another if that one is not asleep; with nobody
      asleep it is lost. */
  function SignalTarget(ws: seq<Worker>, pick: nat): (t: Option<nat>)
    ensures t.Some? ==> t.value < |ws| && ws[t.value].Sleeping?
    ensures t.None? ==> forall p <- ws :: !p.Sleeping?
  {
    if pick < |ws| && ws[pick].Sleeping? then Some(pick) else FirstSleeper(ws, 0)
  }

  function FirstSleeper(ws: seq<Worker>, from: nat): (t: Option<nat>)
    requires from <= |ws|
    ensures t.Some? ==> t.value < |ws| && ws[t.value].Sleeping?
    ensures t.None? ==> forall i | from <= i < |ws| :: !ws[i].Sleeping?
    decreases |ws| - from
  {
    if from == |ws| then None else if ws[from].Sleeping? then Some(from) else FirstSleeper(ws, from + 1)
  }

  function Signalled(ws: seq<Worker>, pick: nat): seq<Worker> {
    match SignalTarget(ws, pick)
    case None => ws
    case Some(i) => ws[i := Waking]
  }

  function AdderStep(s: State, kind: Kind, a: nat, task: Task, pick: nat): State
    requires a < |s.adders|
  {
    match s.adders[a]
    case Outside =>
      if s.lock.Some? then s
      else s.(lock := Some(TheAdder(a)), adders := s.adders[a := Adding(task)], offered := s.offered + [task])
    case Adding(t) =>
      if kind.Stopping? && (|s.queue| == kind.capacity || s.shutdown) then
        s.(refused := s.refused + [t], adders := s.adders[a := Unlocking])
      else s.(queue := s.queue + [t], accepted := s.accepted + [t], adders := s.adders[a := Signalling])
    case Signalling => s.(workers := Signalled(s.workers, pick), adders := s.adders[a := Unlocking])
    case Unlocking => s.(lock := None, adders := s.adders[a := Outside])
  }

  function DestroyerStep(s: State): State {
    match s.destroyer
    case NotCalled => if s.lock.Some? then s else s.(lock := Some(TheDestroyer), destroyer := Closing)
    case Closing =>
      s.(shutdown := true, destroyer := Broadcasting, acceptedBefore := |s.accepted|, leftBehind := |s.queue|)
    case Broadcasting =>
      s.(workers := seq(|s.workers|, w requires 0 <= w < |s.workers| => Woken(s.workers[w])), destroyer := Releasing)
    case Releasing => s.(lock := None, destroyer := Joining)
    case Joining => if forall p <- s.workers :: p.Exited? then s.(destroyer := Destroyed) else s
    case Destroyed => s
  }

  function Step(s: State, kind: Kind, e: Event): State {
    match e
    case WorkerMoves(w) => if w < |s.workers| then WorkerStep(s, kind, w) else s
    case WakesAlone(w) =>
      if w < |s.workers| && s.workers[w].Sleeping? then s.(workers := s.workers[w := Waking]) else s
    case AdderMoves(a, task, pick) => if a < |s.adders| then AdderStep(s, kind, a, task, pick) else s
    case DestroyerMoves => DestroyerStep(s)
  }

  // ---------- invariants ----------

  predicate HoldsLock(p: Worker) {
    p.Testing? || p.Taking? || p.Leaving? || p.Exiting?
  }

  predicate IsThread(s: State, h: Holder) {
    match h
    case TheWorker(w) => w < |s.workers|
    case TheAdder(a) => a < |s.adders|
    case TheDestroyer => true
  }

  /** Exactly the holder is between lock and unlock. */
  ghost predicate LockInv(s: State) {
    && (s.lock.Some? ==> IsThread(s, s.lock.value))
    && (forall w | 0 <= w < |s.workers| :: HoldsLock(s.workers[w]) <==> s.lock == Some(TheWorker(w)))
    && (forall a | 0 <= a < |s.adders| :: !s.adders[a].Outside? <==> s.lock == Some(TheAdder(a)))
    && (s.destroyer.Closing? || s.destroyer.Broadcasting? || s.destroyer.Releasing? <==> s.lock == Some(TheDestroyer))
  }

  ghost predicate QueueInv(s: State, kind: Kind) {
    && s.accepted == s.started + s.queue
    && (kind.Stopping? ==> |s.queue| <= kind.capacity)
    && (forall w | 0 <= w < |s.workers| && s.workers[w].Taking? :: s.queue != [] || s.shutdown)
  }

  /** After the broadcast nobody sleeps; before shutdown nobody has left. */
  ghost predicate ShutdownInv(s: State, kind: Kind) {
    && (s.shutdown <==> !s.destroyer.NotCalled? && !s.destroyer.Closing?)
    && (s.shutdown && !s.destroyer.Broadcasting? ==> forall p <- s.workers :: !p.Sleeping?)
    && (s.destroyer.Destroyed? ==> forall p <- s.workers :: p.Exited?)
    && (s.shutdown ==> s.acceptedBefore <= |s.accepted|)
    && (s.shutdown && kind.Stopping? ==> |s.queue| == s.leftBehind && |s.accepted| == s.acceptedBefore)
    && (forall p <- s.workers | p.Exiting? || p.Exited? ::
          s.shutdown && !s.destroyer.Broadcasting? && (kind.Draining? ==> |s.started| >= s.acceptedBefore))
  }

  /** The task in a worker's hands. */
  function Load(p: Worker): Option<nat> {
    match p
    case Leaving(k) => Some(k)
    case Running(k) => Some(k)
    case _ => None
  }

  /** Each task taken out is in the hands of exactly one worker until it has run, once. */
  ghost predicate RunInv(s: State) {
    NoneTwice(s) && NoneForgotten(s)
  }

  ghost predicate NoneTwice(s: State) {
    && (forall k :: s.executed[k] <= 1)
    && (forall k :: k in s.executed ==> k < |s.started|)
    && (forall w | 0 <= w < |s.workers| && Load(s.workers[w]).Some? ::
          Load(s.workers[w]).value < |s.started| && Load(s.workers[w]).value !in s.executed)
    && (forall v, w | 0 <= v < w < |s.workers| && Load(s.workers[v]).Some? :: Load(s.workers[v]) != Load(s.workers[w]))
  }

  ghost predicate NoneForgotten(s: State) {
    forall k: nat | k < |s.started| ::
      k in s.executed || exists w :: 0 <= w < |s.workers| && Load(s.workers[w]) == Some(k)
  }

  /** Awake and on the way to taking a task. */
  predicate Heading(p: Worker) {
    p.Entering? || p.Waking? || p.Testing? || p.Taking?
  }

  /** 1 while a task has been queued and its signal not yet sent. */
  function SignalDue(s: State): nat {
    if s.lock.Some? && s.lock.value.TheAdder? && s.lock.value.a < |s.adders| && s.adders[s.lock.value.a].Signalling? then 1
    else 0
  }

  /** No wakeup is lost: while somebody sleeps, there are workers on the way for every queued task. */
  ghost predicate WakeInv(s: State) {
    forall w | 0 <= w < |s.workers| && s.workers[w].Sleeping? :: |s.queue| <= Count(s.workers, Heading) + SignalDue(s)
  }

  /** When all workers of the draining pool are leaving, the last to decide so found the queue empty. */
  ghost predicate ExitInv(s: State, kind: Kind) {
    kind.Draining? && s.workers != [] && (forall p <- s.workers :: p.Exiting? || p.Exited?) ==>
      |s.started| == s.acceptedAtExit
  }

  /** The task a call to add has come in with and not decided on yet. */
  function InHand(s: State): seq<Task> {
    match s.lock
    case Some(TheAdder(a)) => if a < |s.adders| && s.adders[a].Adding? then [s.adders[a].task] else []
    case _ => []
  }

  /** Every task offered is accepted, refused or in hand; the draining pool refuses none. */
  ghost predicate OfferInv(s: State, kind: Kind) {
    && multiset(s.offered) == multiset(s.accepted) + multiset(s.refused) + multiset(InHand(s))
    && (kind.Draining? ==> s.refused == [] && s.offered == s.accepted + InHand(s))
  }

  ghost predicate Inv(s: State, kind: Kind) {
    LockInv(s) && QueueInv(s, kind) && ShutdownInv(s, kind) && RunInv(s) && WakeInv(s) && ExitInv(s, kind)
  }

  lemma InitialInv(kind: Kind, workers: nat, adders: nat)
    ensures Inv(Initial(workers, adders), kind)
  {
  }

  // ---------- every step keeps them ----------

  lemma WorkerKeepsLock(s: State, kind: Kind, w: nat)
    requires LockInv(s) && w < |s.workers|
    ensures LockInv(WorkerStep(s, kind, w))
  {
  }

  lemma AdderKeepsLock(s: State, kind: Kind, a: nat, task: Task, pick: nat)
    requires LockInv(s) && a < |s.adders|
    ensures LockInv(AdderStep(s, kind, a, task, pick))
  {
  }

  lemma StepKeepsLock(s: State, kind: Kind, e: Event)
    requires LockInv(s)
    ensures LockInv(Step(s, kind, e))
  {
    match e
    case WorkerMoves(w) => if w < |s.workers| { WorkerKeepsLock(s, kind, w); }
    case AdderMoves(a, task, pick) => if a < |s.adders| { AdderKeepsLock(s, kind, a, task, pick); }
    case _ =>
  }

  lemma WorkerKeepsQueue(s: State, kind: Kind, w: nat)
    requires LockInv(s) && QueueInv(s, kind) && ShutdownInv(s, kind) && w < |s.workers|
    ensures QueueInv(WorkerStep(s, kind, w), kind)
  {
    hide ShutdownInv;
    if s.queue != [] {
      assert s.started + s.queue == s.started + [s.queue[0]] + s.queue[1..];
    }
  }

  lemma AdderKeepsQueue(s: State, kind: Kind, a: nat, task: Task, pick: nat)
    requires LockInv(s) && QueueInv(s, kind) && ShutdownInv(s, kind) && a < |s.adders|
    ensures QueueInv(AdderStep(s, kind, a, task, pick), kind)
  {
    hide ShutdownInv;
  }

  lemma StepKeepsQueue(s: State, kind: Kind, e: Event)
    requires LockInv(s) && QueueInv(s, kind) && ShutdownInv(s, kind)
    ensures QueueInv(Step(s, kind, e), kind)
  {
    match e
    case WorkerMoves(w) => if w < |s.workers| { WorkerKeepsQueue(s, kind, w); }
    case AdderMoves(a, task, pick) => if a < |s.adders| { AdderKeepsQueue(s, kind, a, task, pick); }
    case _ =>
  }

  lemma WorkerKeepsShutdown(s: State, kind: Kind, w: nat)
    requires LockInv(s) && QueueInv(s, kind) && ShutdownInv(s, kind) && w < |s.workers|
    ensures ShutdownInv(WorkerStep(s, kind, w), kind)
  {
    assert s.workers[w] in s.workers;
  }

  lemma AdderKeepsShutdown(s: State, kind: Kind, a: nat, task: Task, pick: nat)
    requires LockInv(s) && QueueInv(s, kind) && ShutdownInv(s, kind) && a < |s.adders|
    ensures ShutdownInv(AdderStep(s, kind, a, task, pick), kind)
  {
  }

  lemma StepKeepsShutdown(s: State, kind: Kind, e: Event)
    requires LockInv(s) && QueueInv(s, kind) && ShutdownInv(s, kind)
    ensures ShutdownInv(Step(s, kind, e), kind)
  {
    match e
    case WorkerMoves(w) => if w < |s.workers| { WorkerKeepsShutdown(s, kind, w); }
    case AdderMoves(a, task, pick) => if a < |s.adders| { AdderKeepsShutdown(s, kind, a, task, pick); }
    case _ =>
  }

  /** A step that moves no task leaves the accounting as it was. */
  lemma SameLoads(s: State, s': State)
    requires RunInv(s) && s'.started == s.started && s'.executed == s.executed && |s'.workers| == |s.workers|
    requires forall w | 0 <= w < |s.workers| :: Load(s'.workers[w]) == Load(s.workers[w])
    ensures RunInv(s')
  {
    forall k: nat | k < |s.started| && k !in s.executed
      ensures exists w :: 0 <= w < |s'.workers| && Load(s'.workers[w]) == Some(k)
    {
      var w :| 0 <= w < |s.workers| && Load(s.workers[w]) == Some(k);
      assert Load(s'.workers[w]) == Some(k);
    }
  }

  lemma TakeKeepsRuns(s: State, kind: Kind, w: nat)
    requires RunInv(s) && w < |s.workers| && s.workers[w].Taking? && WorkerStep(s, kind, w).workers[w].Leaving?
    ensures RunInv(WorkerStep(s, kind, w))
  {
    TakeForgetsNone(s, kind, w);
    hide NoneForgotten;
  }

  lemma TakeForgetsNone(s: State, kind: Kind, w: nat)
    requires NoneForgotten(s) && w < |s.workers| && s.workers[w].Taking? && WorkerStep(s, kind, w).workers[w].Leaving?
    ensures NoneForgotten(WorkerStep(s, kind, w))
  {
    var s' := WorkerStep(s, kind, w);
    forall k: nat | k < |s'.started| && k !in s'.executed
      ensures exists v :: 0 <= v < |s'.workers| && Load(s'.workers[v]) == Some(k)
    {
      if k == |s.started| {
        assert Load(s'.workers[w]) == Some(k);
      } else {
        var v :| 0 <= v < |s.workers| && Load(s.workers[v]) == Some(k);
        assert Load(s'.workers[v]) == Some(k);
      }
    }
  }

  lemma FinishKeepsRuns(s: State, kind: Kind, w: nat)
    requires RunInv(s) && w < |s.workers| && s.workers[w].Running?
    ensures RunInv(WorkerStep(s, kind, w))
  {
    var s' := WorkerStep(s, kind, w);
    assert Load(s.workers[w]) == Some(s.workers[w].k);
    forall k: nat | k < |s.started| && k !in s'.executed
      ensures exists v :: 0 <= v < |s'.workers| && Load(s'.workers[v]) == Some(k)
    {
      var v :| 0 <= v < |s.workers| && Load(s.workers[v]) == Some(k);
      assert Load(s'.workers[v]) == Some(k);
    }
  }

  lemma StepKeepsRuns(s: State, kind: Kind, e: Event)
    requires RunInv(s)
    ensures RunInv(Step(s, kind, e))
  {
    hide RunInv;
    var s' := Step(s, kind, e);
    if e.WorkerMoves? && e.w < |s.workers| && s.workers[e.w].Running? {
      FinishKeepsRuns(s, kind, e.w);
    } else if e.WorkerMoves? && e.w < |s.workers| && s.workers[e.w].Taking? && s'.workers[e.w].Leaving? {
      TakeKeepsRuns(s, kind, e.w);
    } else {
      SameLoads(s, s');
    }
  }

  // ---------- no lost wakeup ----------

  lemma SignalWakes(ws: seq<Worker>, pick: nat)
    ensures SignalTarget(ws, pick).Some? ==> Count(Signalled(ws, pick), Heading) == Count(ws, Heading) + 1
  {
    if SignalTarget(ws, pick).Some? {
      CountUpdate(ws, SignalTarget(ws, pick).value, Waking, Heading);
    }
  }

  lemma WorkerKeepsWake(s: State, kind: Kind, w: nat)
    requires Inv(s, kind) && w < |s.workers|
    ensures WakeInv(WorkerStep(s, kind, w))
  {
    CountUpdate(s.workers, w, WorkerStep(s, kind, w).workers[w], Heading);
    hide Count, RunInv;
  }

  lemma AdderKeepsWake(s: State, kind: Kind, a: nat, task: Task, pick: nat)
    requires Inv(s, kind) && a < |s.adders|
    ensures WakeInv(AdderStep(s, kind, a, task, pick))
  {
    SignalWakes(s.workers, pick);
    hide Count, RunInv, QueueInv, ShutdownInv;
  }

  lemma StepKeepsWake(s: State, kind: Kind, e: Event)
    requires Inv(s, kind)
    ensures WakeInv(Step(s, kind, e))
  {
    match e
    case WorkerMoves(w) => if w < |s.workers| { WorkerKeepsWake(s, kind, w); }
    case WakesAlone(w) => if w < |s.workers| { CountUpdate(s.workers, w, Waking, Heading); }
    case AdderMoves(a, task, pick) => if a < |s.adders| { AdderKeepsWake(s, kind, a, task, pick); }
    case DestroyerMoves => DestroyerKeepsWake(s, kind);
  }

  lemma DestroyerKeepsWake(s: State, kind: Kind)
    requires Inv(s, kind)
    ensures WakeInv(DestroyerStep(s))
  {
  }

  // ---------- the last worker to leave ----------

  lemma WorkerKeepsExit(s: State, kind: Kind, w: nat)
    requires QueueInv(s, kind) && ExitInv(s, kind) && w < |s.workers|
    ensures ExitInv(WorkerStep(s, kind, w), kind)
  {
    var s' := WorkerStep(s, kind, w);
    assert s'.workers[w] in s'.workers;
    if s.workers[w].Exiting? || s.workers[w].Exited? {
      forall p | p in s.workers
        ensures p == s.workers[w] || p in s'.workers
      {
        var v :| 0 <= v < |s.workers| && s.workers[v] == p;
        assert v != w ==> s'.workers[v] == p;
      }
    }
  }

  lemma StepKeepsExit(s: State, kind: Kind, e: Event)
    requires QueueInv(s, kind) && ExitInv(s, kind)
    ensures ExitInv(Step(s, kind, e), kind)
  {
    var s' := Step(s, kind, e);
    if e.WorkerMoves? {
      if e.w < |s.workers| {
        WorkerKeepsExit(s, kind, e.w);
      }
    } else {
      OthersStay(s, s', kind, e);
    }
  }

  /** A step of another thread makes no worker leave. */
  lemma OthersStay(s: State, s': State, kind: Kind, e: Event)
    requires !e.WorkerMoves? && s' == Step(s, kind, e)
    ensures s'.started == s.started && s'.acceptedAtExit == s.acceptedAtExit && |s'.workers| == |s.workers|
    ensures (forall p <- s'.workers :: p.Exiting? || p.Exited?) ==> forall p <- s.workers :: p.Exiting? || p.Exited?
  {
    if forall p <- s'.workers :: p.Exiting? || p.Exited? {
      forall p | p in s.workers
        ensures p.Exiting? || p.Exited?
      {
        var v :| 0 <= v < |s.workers| && s.workers[v] == p;
        assert s'.workers[v] in s'.workers;
      }
    }
  }

  // ---------- what is offered ----------

  lemma StepKeepsOffer(s: State, kind: Kind, e: Event)
    requires LockInv(s) && OfferInv(s, kind)
    ensures OfferInv(Step(s, kind, e), kind)
  {
    if e.AdderMoves? && e.a < |s.adders| {
      match s.adders[e.a]
      case Outside => LockingKeepsOffer(s, kind, e.a, e.task, e.pick);
      case Adding(_) => DecidingKeepsOffer(s, kind, e.a, e.task, e.pick);
      case _ => OthersKeepOffer(s, kind, e);
    } else {
      OthersKeepOffer(s, kind, e);
    }
  }

  lemma OthersKeepAccepted(s: State, kind: Kind, e: Event)
    requires e.AdderMoves? && e.a < |s.adders| ==> !s.adders[e.a].Adding?
    ensures Step(s, kind, e).accepted == s.accepted && Step(s, kind, e).refused == s.refused
  {
    hide Signalled;
  }

  lemma InvHasLock(s: State, kind: Kind)
    requires Inv(s, kind)
    ensures LockInv(s)
  {
  }

  /** A step that neither locks nor decides offers, accepts and refuses nothing. */
  lemma OthersKeepOffer(s: State, kind: Kind, e: Event)
    requires LockInv(s)
    requires e.AdderMoves? && e.a < |s.adders| ==> s.adders[e.a].Signalling? || s.adders[e.a].Unlocking?
    ensures var s' := Step(s, kind, e);
            s'.offered == s.offered && s'.accepted == s.accepted && s'.refused == s.refused && InHand(s') == InHand(s)
  {
    hide Signalled;
  }

  lemma LockingKeepsOffer(s: State, kind: Kind, a: nat, task: Task, pick: nat)
    requires OfferInv(s, kind) && a < |s.adders| && s.adders[a].Outside?
    ensures OfferInv(AdderStep(s, kind, a, task, pick), kind)
  {
    if s.lock.None? {
      assert InHand(s) == [] && InHand(AdderStep(s, kind, a, task, pick)) == [task];
      hide InHand;
      assert s.accepted + [] == s.accepted;
    }
  }

  lemma DecidingKeepsOffer(s: State, kind: Kind, a: nat, task: Task, pick: nat)
    requires LockInv(s) && OfferInv(s, kind) && a < |s.adders| && s.adders[a].Adding?
    ensures OfferInv(AdderStep(s, kind, a, task, pick), kind)
  {
    var s', t := AdderStep(s, kind, a, task, pick), s.adders[a].task;
    assert InHand(s) == [t] && InHand(s') == [];
    assert s'.offered == s.offered;
    assert (s'.accepted == s.accepted && s'.refused == s.refused + [t] && kind.Stopping?)
        || (s'.accepted == s.accepted + [t] && s'.refused == s.refused);
    hide InHand, LockInv, AdderStep;
    assert s.accepted + [t] + [] == s.accepted + [t];
  }

  // ---------- every run ----------

  /** The state after the events of `run`, in that order. */
  function Run(kind: Kind, workers: nat, adders: nat, run: seq<Event>): State {
    if run == [] then Initial(workers, adders)
    else Step(Run(kind, workers, adders, run[..|run| - 1]), kind, run[|run| - 1])
  }

  lemma {:induction false} RunKeepsInv(kind: Kind, workers: nat, adders: nat, run: seq<Event>)
    ensures var s := Run(kind, workers, adders, run); Inv(s, kind) && |s.workers| == workers
  {
    hide Inv, Step;
    if run == [] {
      InitialInv(kind, workers, adders);
    } else {
      RunKeepsInv(kind, workers, adders, run[..|run| - 1]);
      StepKeepsInv(Run(kind, workers, adders, run[..|run| - 1]), kind, run[|run| - 1]);
    }
  }

  lemma StepKeepsInv(s: State, kind: Kind, e: Event)
    requires Inv(s, kind)
    ensures Inv(Step(s, kind, e), kind) && |Step(s, kind, e).workers| == |s.workers|
  {
    StepKeepsWorkers(s, kind, e);
    hide LockInv, QueueInv, ShutdownInv, RunInv, WakeInv, ExitInv, Step;
    StepKeepsLock(s, kind, e);
    StepKeepsQueue(s, kind, e);
    StepKeepsShutdown(s, kind, e);
    StepKeepsRuns(s, kind, e);
    StepKeepsWake(s, kind, e);
    StepKeepsExit(s, kind, e);
  }

  lemma StepKeepsWorkers(s: State, kind: Kind, e: Event)
    ensures |Step(s, kind, e).workers| == |s.workers|
  {
  }

  /** Tasks are started in the order they were accepted, and run at most once each. */
  lemma StartedInOrder(kind: Kind, workers: nat, adders: nat, run: seq<Event>, k: nat)
    ensures var s := Run(kind, workers, adders, run);
            s.started <= s.accepted && s.executed[k] <= 1 && (k in s.executed ==> k < |s.started|)
  {
    RunKeepsInv(kind, workers, adders, run);
    var s := Run(kind, workers, adders, run);
    assert s.accepted[..|s.started|] == s.started;
  }

  lemma {:induction false} RunKeepsOffer(kind: Kind, workers: nat, adders: nat, run: seq<Event>)
    ensures OfferInv(Run(kind, workers, adders, run), kind)
  {
    hide OfferInv, Inv, Step;
    if run == [] {
      NothingOffered(kind, workers, adders);
    } else {
      RunKeepsInv(kind, workers, adders, run[..|run| - 1]);
      RunKeepsOffer(kind, workers, adders, run[..|run| - 1]);
      InvHasLock(Run(kind, workers, adders, run[..|run| - 1]), kind);
      StepKeepsOffer(Run(kind, workers, adders, run[..|run| - 1]), kind, run[|run| - 1]);
    }
  }

  lemma NothingOffered(kind: Kind, workers: nat, adders: nat)
    ensures OfferInv(Initial(workers, adders), kind)
  {
  }

  /** Whatever a call to add came in with is accepted or refused, except for the one task of a thread
      that holds the lock before deciding. */
  lemma EveryOfferIsAnswered(kind: Kind, workers: nat, adders: nat, run: seq<Event>)
    ensures var s := Run(kind, workers, adders, run);
            (forall a <- s.adders :: !a.Adding?) ==>
              && multiset(s.offered) == multiset(s.accepted) + multiset(s.refused)
              && |s.offered| == |s.accepted| + |s.refused|
    ensures var s := Run(kind, workers, adders, run);
            forall a | 0 <= a < |s.adders| && s.adders[a].Adding? ::
              && multiset(s.offered) == multiset(s.accepted) + multiset(s.refused) + multiset{s.adders[a].task}
              && |s.offered| == |s.accepted| + |s.refused| + 1
  {
    RunKeepsInv(kind, workers, adders, run);
    RunKeepsOffer(kind, workers, adders, run);
    var s := Run(kind, workers, adders, run);
    hide Run, QueueInv, ShutdownInv, RunInv, WakeInv, ExitInv;
    if forall a <- s.adders :: !a.Adding? {
      assert InHand(s) == [];
    }
    assert |multiset(s.offered)| == |s.offered|;
    assert |multiset(s.accepted) + multiset(s.refused)| == |s.accepted| + |s.refused|;
  }

  /** The draining pool never refuses: it accepts what it is offered, in that order. */
  lemma NeverRefuses(workers: nat, adders: nat, run: seq<Event>)
    ensures var s := Run(Draining, workers, adders, run);
            && s.refused == [] && s.accepted <= s.offered && |s.offered| <= |s.accepted| + 1
            && ((forall a <- s.adders :: !a.Adding?) ==> s.accepted == s.offered)
  {
    RunKeepsInv(Draining, workers, adders, run);
    RunKeepsOffer(Draining, workers, adders, run);
    var s := Run(Draining, workers, adders, run);
    hide Run, QueueInv, ShutdownInv, RunInv, WakeInv, ExitInv;
  }

  /** The stopping pool refuses exactly when `capacity` tasks are accepted and not yet started, or it is
      shut down; either pool puts every other task behind the queued ones. No other step does either. */
  lemma RefusesExactly(kind: Kind, workers: nat, adders: nat, run: seq<Event>, e: Event)
    ensures var s, s' := Run(kind, workers, adders, run), Run(kind, workers, adders, run + [e]);
            if e.AdderMoves? && e.a < |s.adders| && s.adders[e.a].Adding? then
              var t := s.adders[e.a].task;
              if kind.Stopping? && (|s.accepted| - |s.started| == kind.capacity || s.shutdown) then
                s'.refused == s.refused + [t] && s'.accepted == s.accepted
              else
                s'.refused == s.refused && s'.accepted == s.accepted + [t] && s'.queue == s.queue + [t]
            else
              s'.refused == s.refused && s'.accepted == s.accepted
  {
    RunKeepsInv(kind, workers, adders, run);
    assert (run + [e])[..|run|] == run;
    hide LockInv, ShutdownInv, RunInv, WakeInv, ExitInv, Signalled, Initial, WorkerStep, DestroyerStep;
    var s := Run(kind, workers, adders, run);
    if e.AdderMoves? && e.a < |s.adders| && s.adders[e.a].Adding? {
    } else {
      OthersKeepAccepted(s, kind, e);
    }
  }

  /** While nobody is between queueing a task and signalling, every queued task has a worker awake
      on the way to the queue, if any worker sleeps; after shutdown has been broadcast none does. */
  lemma NoLostWakeup(kind: Kind, workers: nat, adders: nat, run: seq<Event>)
    ensures var s := Run(kind, workers, adders, run);
            && ((exists p <- s.workers :: p.Sleeping?) ==> |s.queue| <= Count(s.workers, Heading) + SignalDue(s))
            && (s.shutdown && !s.destroyer.Broadcasting? ==> forall p <- s.workers :: !p.Sleeping?)
  {
    RunKeepsInv(kind, workers, adders, run);
    var s := Run(kind, workers, adders, run);
    if p :| p in s.workers && p.Sleeping? {
      var w :| 0 <= w < |s.workers| && s.workers[w] == p;
    }
  }

  // ---------- destroy returns ----------

  /** Shutdown has been broadcast. */
  predicate Closed(s: State) {
    s.destroyer.Releasing? || s.destroyer.Joining? || s.destroyer.Destroyed?
  }

  /** A step of a worker, of the destroyer, or of a thread in the middle of adding: no new call. */
  predicate Continues(s: State, e: Event) {
    e.WorkerMoves? || e.DestroyerMoves? || (e.AdderMoves? && e.a < |s.adders| && !s.adders[e.a].Outside?)
  }

  predicate CanContinue(s: State, kind: Kind, e: Event) {
    Continues(s, e) && Step(s, kind, e) != s
  }

  /** Whoever holds the lock can go on. */
  lemma HolderCanStep(s: State, kind: Kind) returns (e: Event)
    requires LockInv(s) && QueueInv(s, kind) && s.lock.Some?
    ensures CanContinue(s, kind, e)
    ensures match s.lock.value
            case TheWorker(w) => e == WorkerMoves(w)
            case TheAdder(a) => e.AdderMoves? && e.a == a
            case TheDestroyer => e == DestroyerMoves
  {
    match s.lock.value
    case TheWorker(w) =>
      e := WorkerMoves(w);
      assert WorkerStep(s, kind, w).workers[w] != s.workers[w];
    case TheAdder(a) =>
      e := AdderMoves(a, 0, 0);
      assert AdderStep(s, kind, a, 0, 0).adders[a] != s.adders[a];
    case TheDestroyer =>
      e := DestroyerMoves;
  }

  lemma ClosedCanContinue(s: State, kind: Kind) returns (e: Event)
    requires Inv(s, kind) && Closed(s) && !s.destroyer.Destroyed?
    ensures CanContinue(s, kind, e)
  {
    hide RunInv, WakeInv, ExitInv, CanContinue;
    if s.lock.Some? {
      e := HolderCanStep(s, kind);
    } else if w :| 0 <= w < |s.workers| && !s.workers[w].Exited? {
      assert s.workers[w] in s.workers;
      e := WorkerMoves(w);
      FreeWorkerMovesOn(s, kind, w);
    } else {
      e := DestroyerMoves;
      JoinedMovesOn(s, kind);
    }
  }

  lemma FreeWorkerMovesOn(s: State, kind: Kind, w: nat)
    requires w < |s.workers| && s.lock.None? && !HoldsLock(s.workers[w])
    requires !s.workers[w].Exited? && !s.workers[w].Sleeping?
    ensures CanContinue(s, kind, WorkerMoves(w))
  {
    assert WorkerStep(s, kind, w).workers[w] != s.workers[w];
  }

  lemma JoinedMovesOn(s: State, kind: Kind)
    requires s.destroyer.Joining? && forall w | 0 <= w < |s.workers| :: s.workers[w].Exited?
    ensures CanContinue(s, kind, DestroyerMoves)
  {
  }

  /** Joining never hangs: until destroy has returned somebody can take a step, a new call to add not
      counting, and no worker sleeps. */
  lemma JoinNeverHangs(kind: Kind, workers: nat, adders: nat, run: seq<Event>) returns (e: Event)
    ensures var s := Run(kind, workers, adders, run);
            Closed(s) && !s.destroyer.Destroyed? ==>
              CanContinue(s, kind, e) && forall p <- s.workers :: !p.Sleeping?
  {
    RunKeepsInv(kind, workers, adders, run);
    var s := Run(kind, workers, adders, run);
    hide Run, CanContinue;
    e := DestroyerMoves;
    if Closed(s) && !s.destroyer.Destroyed? {
      e := ClosedCanContinue(s, kind);
    }
  }

  function WorkerWork(p: Worker): nat {
    match p
    case Leaving(_) => 6
    case Running(_) => 5
    case Entering => 4
    case Waking => 4
    case Sleeping => 4
    case Testing => 3
    case Taking => 2
    case Exiting => 1
    case Exited => 0
  }

  function AdderWork(a: Adder): nat {
    match a
    case Outside => 0
    case Adding(_) => 8
    case Signalling => 2
    case Unlocking => 1
  }

  function DestroyerWork(d: Destroyer): nat {
    match d
    case NotCalled => 5
    case Closing => 4
    case Broadcasting => 3
    case Releasing => 2
    case Joining => 1
    case Destroyed => 0
  }

  /** A bound on the steps left once shutdown has been broadcast. */
  function Work(s: State): nat {
    5 * |s.queue| + Sum(s.workers, WorkerWork) + Sum(s.adders, AdderWork) + DestroyerWork(s.destroyer)
  }

  /** What one step of a worker costs, a task taken out included. */
  lemma WorkerSpends(s: State, kind: Kind, w: nat)
    requires s.shutdown && w < |s.workers| && WorkerStep(s, kind, w) != s
    ensures var s' := WorkerStep(s, kind, w);
            && s'.workers == s.workers[w := s'.workers[w]] && s'.adders == s.adders && s'.destroyer == s.destroyer
            && 5 * |s'.queue| + WorkerWork(s'.workers[w]) < 5 * |s.queue| + WorkerWork(s.workers[w])
  {
  }

  lemma WorkerDoesWork(s: State, kind: Kind, w: nat)
    requires s.shutdown && w < |s.workers| && WorkerStep(s, kind, w) != s
    ensures Work(WorkerStep(s, kind, w)) < Work(s) && WorkerStep(s, kind, w).destroyer == s.destroyer
  {
    WorkerSpends(s, kind, w);
    SumUpdate(s.workers, w, WorkerStep(s, kind, w).workers[w], WorkerWork);
    hide Sum, WorkerStep, WorkerWork;
  }

  lemma AdderDoesWork(s: State, kind: Kind, a: nat, task: Task, pick: nat)
    requires a < |s.adders| && !s.adders[a].Outside? && forall p <- s.workers :: !p.Sleeping?
    ensures Work(AdderStep(s, kind, a, task, pick)) < Work(s)
  {
    SumUpdate(s.adders, a, AdderStep(s, kind, a, task, pick).adders[a], AdderWork);
    hide Sum;
  }

  lemma StepDoesWork(s: State, kind: Kind, e: Event)
    requires Inv(s, kind) && Closed(s) && CanContinue(s, kind, e)
    ensures Work(Step(s, kind, e)) < Work(s) && Closed(Step(s, kind, e))
  {
    hide LockInv, QueueInv, RunInv, WakeInv, ExitInv, Sum;
    match e
    case WorkerMoves(w) => WorkerDoesWork(s, kind, w);
    case AdderMoves(a, task, pick) => AdderDoesWork(s, kind, a, task, pick);
    case _ =>
  }

  /** `rest` goes on after `run` with steps that change something and no new call to add. */
  ghost predicate Finishing(kind: Kind, workers: nat, adders: nat, run: seq<Event>, rest: seq<Event>) {
    rest == [] ||
    var k := |rest| - 1;
    && Finishing(kind, workers, adders, run, rest[..k])
    && CanContinue(Run(kind, workers, adders, run + rest[..k]), kind, rest[k])
  }

  lemma NothingYet(kind: Kind, workers: nat, adders: nat, run: seq<Event>)
    ensures Finishing(kind, workers, adders, run, [])
  {
  }

  lemma OneMore(kind: Kind, workers: nat, adders: nat, run: seq<Event>, rest: seq<Event>, e: Event)
    requires Finishing(kind, workers, adders, run, rest) && CanContinue(Run(kind, workers, adders, run + rest), kind, e)
    ensures Finishing(kind, workers, adders, run, rest + [e])
    ensures Run(kind, workers, adders, run + (rest + [e])) == Step(Run(kind, workers, adders, run + rest), kind, e)
  {
    hide CanContinue, Step;
    var longer := run + (rest + [e]);
    assert longer[..|longer| - 1] == run + rest && (rest + [e])[..|rest|] == rest;
  }

  /** After the broadcast such steps come to an end, whoever takes them. */
  lemma {:induction false} FinishingIsBounded(kind: Kind, workers: nat, adders: nat, run: seq<Event>, rest: seq<Event>)
    requires Finishing(kind, workers, adders, run, rest) && Closed(Run(kind, workers, adders, run))
    ensures Closed(Run(kind, workers, adders, run + rest))
    ensures |rest| + Work(Run(kind, workers, adders, run + rest)) <= Work(Run(kind, workers, adders, run))
  {
    hide Work, Step, CanContinue, Closed;
    if rest == [] {
      assert run + rest == run;
    } else {
      var k := |rest| - 1;
      FinishingIsBounded(kind, workers, adders, run, rest[..k]);
      RunKeepsInv(kind, workers, adders, run + rest[..k]);
      StepDoesWork(Run(kind, workers, adders, run + rest[..k]), kind, rest[k]);
      OneMore(kind, workers, adders, run, rest[..k], rest[k]);
      assert rest[..k] + [rest[k]] == rest;
    }
  }

  /** Steps until the lock is free, and those of the destroyer up to the broadcast. */
  function WorkToClose(s: State): nat {
    if Closed(s) then 0
    else if s.destroyer.Broadcasting? then 1
    else if s.destroyer.Closing? then 2
    else
      match s.lock
      case Some(TheWorker(w)) =>
        if w >= |s.workers| || s.workers[w].Leaving? || s.workers[w].Exiting? then 4
        else if s.workers[w].Taking? then 5
        else 6
      case Some(TheAdder(a)) =>
        if a >= |s.adders| || s.adders[a].Unlocking? then 4 else if s.adders[a].Signalling? then 5 else 6
      case _ => 3
  }

  /** From every reachable state destroy can be called, and gets as far as the broadcast. */
  lemma CloseStep(s: State, kind: Kind) returns (e: Event)
    requires Inv(s, kind) && !Closed(s)
    ensures CanContinue(s, kind, e) && WorkToClose(Step(s, kind, e)) < WorkToClose(s)
  {
    hide RunInv, WakeInv, ExitInv, ShutdownInv;
    if s.lock.Some? {
      e := HolderCanStep(s, kind);
    } else {
      e := DestroyerMoves;
    }
  }

  lemma {:induction false} CloseFrom(kind: Kind, workers: nat, adders: nat, run: seq<Event>, rest0: seq<Event>)
    returns (rest: seq<Event>)
    requires Finishing(kind, workers, adders, run, rest0)
    ensures Finishing(kind, workers, adders, run, rest) && Closed(Run(kind, workers, adders, run + rest))
    decreases WorkToClose(Run(kind, workers, adders, run + rest0))
  {
    hide Run, Step, CanContinue, Closed, WorkToClose, Finishing, Inv;
    rest := rest0;
    if !Closed(Run(kind, workers, adders, run + rest0)) {
      RunKeepsInv(kind, workers, adders, run + rest0);
      var e := CloseStep(Run(kind, workers, adders, run + rest0), kind);
      OneMore(kind, workers, adders, run, rest0, e);
      rest := CloseFrom(kind, workers, adders, run, rest0 + [e]);
    }
  }

  lemma {:induction false} FinishFrom(kind: Kind, workers: nat, adders: nat, run: seq<Event>, rest0: seq<Event>)
    returns (rest: seq<Event>)
    requires Finishing(kind, workers, adders, run, rest0) && Closed(Run(kind, workers, adders, run + rest0))
    ensures Finishing(kind, workers, adders, run, rest) && Run(kind, workers, adders, run + rest).destroyer.Destroyed?
    decreases Work(Run(kind, workers, adders, run + rest0))
  {
    hide Run, Step, CanContinue, Closed, Work, Finishing, Inv;
    rest := rest0;
    if !Run(kind, workers, adders, run + rest0).destroyer.Destroyed? {
      RunKeepsInv(kind, workers, adders, run + rest0);
      var e := ClosedCanContinue(Run(kind, workers, adders, run + rest0), kind);
      StepDoesWork(Run(kind, workers, adders, run + rest0), kind, e);
      OneMore(kind, workers, adders, run, rest0, e);
      rest := FinishFrom(kind, workers, adders, run, rest0 + [e]);
    }
  }

  /** From every reachable state of either pool a call to destroy returns, with all workers gone. */
  lemma DestroyReturns(kind: Kind, workers: nat, adders: nat, run: seq<Event>) returns (rest: seq<Event>)
    ensures Finishing(kind, workers, adders, run, rest)
    ensures var s := Run(kind, workers, adders, run + rest); s.destroyer.Destroyed? && forall p <- s.workers :: p.Exited?
  {
    hide Run, Step, CanContinue, Closed, Finishing, LockInv, QueueInv, RunInv, WakeInv, ExitInv;
    NothingYet(kind, workers, adders, run);
    rest := CloseFrom(kind, workers, adders, run, []);
    rest := FinishFrom(kind, workers, adders, run, rest);
    RunKeepsInv(kind, workers, adders, run + rest);
  }

  // ---------- an open pool runs its tasks ----------

  predicate Open(s: State) {
    s.destroyer.NotCalled?
  }

  /** A step of a worker, or of a thread in the middle of adding. */
  predicate CanServe(s: State, kind: Kind, e: Event) {
    !e.DestroyerMoves? && CanContinue(s, kind, e)
  }

  /** Everybody waits. */
  predicate Idle(s: State) {
    s.lock.None? && (forall p <- s.workers :: p.Sleeping?) && forall a <- s.adders :: a.Outside?
  }

  lemma OpenCanServe(s: State, kind: Kind) returns (e: Event)
    requires Inv(s, kind) && Open(s) && !Idle(s)
    ensures CanServe(s, kind, e)
  {
    hide RunInv, WakeInv, ExitInv, CanContinue;
    if s.lock.Some? {
      e := HolderCanStep(s, kind);
    } else {
      var w :| 0 <= w < |s.workers| && !s.workers[w].Sleeping?;
      assert s.workers[w] in s.workers;
      e := WorkerMoves(w);
      FreeWorkerMovesOn(s, kind, w);
    }
  }

  /** A queued task is never forgotten: while the pool is open and a task is queued, a worker or a thread
      in the middle of adding can take a step; and unless a signal is due some worker is awake. */
  lemma QueuedTaskIsNoticed(kind: Kind, workers: nat, adders: nat, run: seq<Event>) returns (e: Event)
    requires workers > 0
    ensures var s := Run(kind, workers, adders, run);
            && (s.queue != [] && Open(s) ==> CanServe(s, kind, e))
            && (s.queue != [] && !s.shutdown && SignalDue(s) == 0 ==>
                  exists p <- s.workers :: !p.Sleeping? && !p.Exited?)
  {
    RunKeepsInv(kind, workers, adders, run);
    var s := Run(kind, workers, adders, run);
    hide Run, CanServe;
    e := DestroyerMoves;
    if s.queue != [] && Open(s) {
      if Idle(s) {
        IdleMeansServed(s, kind);
      } else {
        e := OpenCanServe(s, kind);
      }
    }
    if s.queue != [] && !s.shutdown && SignalDue(s) == 0 {
      var p := s.workers[0];
      if p.Sleeping? {
        var w := CountFind(s.workers, Heading);
        assert s.workers[w] in s.workers;
      } else {
        assert p in s.workers && !p.Exited?;
      }
    }
  }

  function ServingWork(p: Worker): nat {
    if p.Sleeping? then 0 else WorkerWork(p)
  }

  function AddingWork(a: Adder): nat {
    match a
    case Outside => 0
    case Adding(_) => 12
    case Signalling => 6
    case Unlocking => 1
  }

  /** A bound on the steps left in an open pool, without a new call. */
  function OpenWork(s: State): nat {
    5 * |s.queue| + Sum(s.workers, ServingWork) + Sum(s.adders, AddingWork)
  }

  lemma WorkerServes(s: State, kind: Kind, w: nat)
    requires !s.shutdown && w < |s.workers| && WorkerStep(s, kind, w) != s && !s.workers[w].Exiting?
    ensures var s' := WorkerStep(s, kind, w);
            && s'.workers == s.workers[w := s'.workers[w]] && s'.adders == s.adders && s'.destroyer == s.destroyer
            && 5 * |s'.queue| + ServingWork(s'.workers[w]) < 5 * |s.queue| + ServingWork(s.workers[w])
  {
  }

  lemma WorkerServing(s: State, kind: Kind, w: nat)
    requires !s.shutdown && w < |s.workers| && WorkerStep(s, kind, w) != s && !s.workers[w].Exiting?
    ensures OpenWork(WorkerStep(s, kind, w)) < OpenWork(s) && WorkerStep(s, kind, w).destroyer == s.destroyer
  {
    WorkerServes(s, kind, w);
    SumUpdate(s.workers, w, WorkerStep(s, kind, w).workers[w], ServingWork);
    hide Sum, WorkerStep, ServingWork;
  }

  /** A signal costs no more than the sleeper it wakes. */
  lemma SignalCosts(ws: seq<Worker>, pick: nat)
    ensures Sum(Signalled(ws, pick), ServingWork) <= Sum(ws, ServingWork) + 4
  {
    if SignalTarget(ws, pick).Some? {
      SumUpdate(ws, SignalTarget(ws, pick).value, Waking, ServingWork);
    }
  }

  lemma AdderServing(s: State, kind: Kind, a: nat, task: Task, pick: nat)
    requires a < |s.adders| && !s.adders[a].Outside?
    ensures OpenWork(AdderStep(s, kind, a, task, pick)) < OpenWork(s)
    ensures AdderStep(s, kind, a, task, pick).destroyer == s.destroyer
  {
    SumUpdate(s.adders, a, AdderStep(s, kind, a, task, pick).adders[a], AddingWork);
    SignalCosts(s.workers, pick);
    hide Sum, Signalled;
  }

  lemma ServeDoesWork(s: State, kind: Kind, e: Event)
    requires Inv(s, kind) && Open(s) && CanServe(s, kind, e)
    ensures OpenWork(Step(s, kind, e)) < OpenWork(s) && Open(Step(s, kind, e))
  {
    hide LockInv, QueueInv, RunInv, WakeInv, ExitInv, Sum, OpenWork;
    match e
    case WorkerMoves(w) =>
      assert s.workers[w] in s.workers;
      WorkerServing(s, kind, w);
    case AdderMoves(a, task, pick) => AdderServing(s, kind, a, task, pick);
    case _ =>
  }

  /** When nobody can serve any more, nothing is queued and every accepted task has run, once. */
  lemma IdleMeansServed(s: State, kind: Kind)
    requires Inv(s, kind) && Idle(s) && s.workers != []
    ensures s.queue == [] && s.started == s.accepted
    ensures forall k: nat | k < |s.accepted| :: s.executed[k] == 1
  {
    assert forall w | 0 <= w < |s.workers| :: s.workers[w] in s.workers;
    CountNone(s.workers, Heading);
    assert s.workers[0].Sleeping?;
    assert s.started + [] == s.started;
    hide Count, LockInv, ShutdownInv, ExitInv;
  }

  /** `rest` goes on after `run` with such steps. */
  ghost predicate Serving(kind: Kind, workers: nat, adders: nat, run: seq<Event>, rest: seq<Event>) {
    rest == [] ||
    var k := |rest| - 1;
    && Serving(kind, workers, adders, run, rest[..k])
    && CanServe(Run(kind, workers, adders, run + rest[..k]), kind, rest[k])
  }

  lemma OneServed(kind: Kind, workers: nat, adders: nat, run: seq<Event>, rest: seq<Event>, e: Event)
    requires Serving(kind, workers, adders, run, rest) && CanServe(Run(kind, workers, adders, run + rest), kind, e)
    ensures Serving(kind, workers, adders, run, rest + [e])
    ensures Run(kind, workers, adders, run + (rest + [e])) == Step(Run(kind, workers, adders, run + rest), kind, e)
  {
    hide CanServe, Step;
    var longer := run + (rest + [e]);
    assert longer[..|longer| - 1] == run + rest && (rest + [e])[..|rest|] == rest;
  }

  /** In an open pool such steps come to an end, whoever takes them. */
  lemma {:induction false} ServingIsBounded(kind: Kind, workers: nat, adders: nat, run: seq<Event>, rest: seq<Event>)
    requires Serving(kind, workers, adders, run, rest) && Open(Run(kind, workers, adders, run))
    ensures Open(Run(kind, workers, adders, run + rest))
    ensures |rest| + OpenWork(Run(kind, workers, adders, run + rest)) <= OpenWork(Run(kind, workers, adders, run))
  {
    hide OpenWork, Step, CanServe, Open;
    if rest == [] {
      assert run + rest == run;
    } else {
      var k := |rest| - 1;
      ServingIsBounded(kind, workers, adders, run, rest[..k]);
      RunKeepsInv(kind, workers, adders, run + rest[..k]);
      ServeDoesWork(Run(kind, workers, adders, run + rest[..k]), kind, rest[k]);
      OneServed(kind, workers, adders, run, rest[..k], rest[k]);
      assert rest[..k] + [rest[k]] == rest;
    }
  }

  /** And then every accepted task has run: from every reachable state of an open pool all of them get
      run, without a new call and without a spurious wakeup. In the draining pool these are all the tasks
      ever offered. */
  lemma EveryTaskRuns(kind: Kind, workers: nat, adders: nat, run: seq<Event>) returns (rest: seq<Event>)
    requires workers > 0 && Open(Run(kind, workers, adders, run))
    ensures Serving(kind, workers, adders, run, rest)
    ensures var s := Run(kind, workers, adders, run + rest);
            && Open(s) && Idle(s) && s.queue == [] && s.started == s.accepted
            && (forall k: nat | k < |s.accepted| :: s.executed[k] == 1)
            && multiset(s.offered) == multiset(s.accepted) + multiset(s.refused)
            && (kind.Draining? ==> s.accepted == s.offered)
  {
    hide Run, Step, CanServe, Open, Serving, Idle;
    NothingServed(kind, workers, adders, run);
    assert run + [] == run;
    rest := ServeFrom(kind, workers, adders, run, []);
    RunKeepsInv(kind, workers, adders, run + rest);
    hide Inv;
    IdleMeansServed(Run(kind, workers, adders, run + rest), kind);
    RunKeepsOffer(kind, workers, adders, run + rest);
    IdleMeansAnswered(Run(kind, workers, adders, run + rest), kind);
  }

  lemma IdleMeansAnswered(s: State, kind: Kind)
    requires OfferInv(s, kind) && Idle(s)
    ensures multiset(s.offered) == multiset(s.accepted) + multiset(s.refused)
    ensures kind.Draining? ==> s.accepted == s.offered
  {
    assert InHand(s) == [];
  }

  lemma NothingServed(kind: Kind, workers: nat, adders: nat, run: seq<Event>)
    ensures Serving(kind, workers, adders, run, [])
  {
  }

  lemma {:induction false} ServeFrom(kind: Kind, workers: nat, adders: nat, run: seq<Event>, rest0: seq<Event>)
    returns (rest: seq<Event>)
    requires Serving(kind, workers, adders, run, rest0) && Open(Run(kind, workers, adders, run + rest0))
    ensures Serving(kind, workers, adders, run, rest)
    ensures Open(Run(kind, workers, adders, run + rest)) && Idle(Run(kind, workers, adders, run + rest))
    decreases OpenWork(Run(kind, workers, adders, run + rest0))
  {
    hide Run, Step, CanServe, Open, Serving, Idle, OpenWork, Inv;
    rest := rest0;
    if !Idle(Run(kind, workers, adders, run + rest0)) {
      RunKeepsInv(kind, workers, adders, run + rest0);
      var e := OpenCanServe(Run(kind, workers, adders, run + rest0), kind);
      ServeDoesWork(Run(kind, workers, adders, run + rest0), kind, e);
      OneServed(kind, workers, adders, run, rest0, e);
      rest := ServeFrom(kind, workers, adders, run, rest0 + [e]);
    }
  }

  ghost predicate AllGone(s: State) {
    s.workers != [] && forall p <- s.workers :: p.Exited?
  }

  lemma GoneMeansExecuted(s: State, kind: Kind)
    requires Inv(s, kind) && AllGone(s)
    ensures s.shutdown && forall k: nat | k < |s.started| :: s.executed[k] == 1
    ensures kind.Draining? ==> |s.started| >= s.acceptedBefore
  {
    assert s.workers[0] in s.workers;
    assert forall w | 0 <= w < |s.workers| :: s.workers[w] in s.workers;
  }

  /** The draining pool: once all workers are gone, every task accepted before shutdown was set has
      run exactly once. */
  lemma DrainsBeforeJoin(workers: nat, adders: nat, run: seq<Event>, k: nat)
    ensures var s := Run(Draining, workers, adders, run);
            AllGone(s) && k < s.acceptedBefore ==>
              k < |s.started| <= |s.accepted| && s.started[k] == s.accepted[k] && s.executed[k] == 1
  {
    RunKeepsInv(Draining, workers, adders, run);
    var s := Run(Draining, workers, adders, run);
    if AllGone(s) {
      GoneMeansExecuted(s, Draining);
    }
  }

  /** The stopping pool runs every accepted task exactly when its queue was empty at shutdown. */
  lemma StopsWithWhatIsLeft(capacity: nat, workers: nat, adders: nat, run: seq<Event>)
    ensures var s := Run(Stopping(capacity), workers, adders, run);
            AllGone(s) ==>
              && |s.started| + s.leftBehind == |s.accepted|
              && ((forall k: nat | k < |s.accepted| :: s.executed[k] == 1) <==> s.leftBehind == 0)
  {
    RunKeepsInv(Stopping(capacity), workers, adders, run);
    var s := Run(Stopping(capacity), workers, adders, run);
    if AllGone(s) {
      GoneMeansExecuted(s, Stopping(capacity));
      if s.leftBehind > 0 {
        assert s.executed[|s.started|] == 0;
      }
    }
  }

  /** The draining pool goes on accepting after shutdown. Once all workers are gone, exactly the tasks
      accepted before the last of them decided to leave have run. */
  lemma LateTasksRunExactly(workers: nat, adders: nat, run: seq<Event>, k: nat)
    ensures var s := Run(Draining, workers, adders, run);
            AllGone(s) && k < |s.accepted| ==>
              && s.acceptedBefore <= s.acceptedAtExit <= |s.accepted|
              && (s.executed[k] == 1 <==> k < s.acceptedAtExit)
  {
    RunKeepsInv(Draining, workers, adders, run);
    var s := Run(Draining, workers, adders, run);
    if AllGone(s) {
      GoneMeansExecuted(s, Draining);
    }
  }

  lemma Then(kind: Kind, workers: nat, adders: nat, run: seq<Event>, e: Event, before: State) returns (run': seq<Event>)
    requires Run(kind, workers, adders, run) == before
    ensures Run(kind, workers, adders, run') == Step(before, kind, e)
  {
    run' := run + [e];
    assert run'[..|run'| - 1] == run;
  }

  /** A pool with one worker and one adder, between two calls. */
  function Quiet(queue: seq<Task>, worker: Worker): State {
    State(None, queue, false, [worker], [Outside], NotCalled, queue, [], multiset{}, 0, 0, 0, queue, [])
  }

  lemma StartQuiet()
    ensures Run(Stopping(1), 1, 1, []) == Quiet([], Entering)
  {
    assert Initial(1, 1) == Quiet([], Entering);
  }

  lemma AddOne() returns (run: seq<Event>)
    ensures Run(Stopping(1), 1, 1, run) == Quiet([7], Entering)
  {
    StartQuiet();
    hide Run, Inv;
    var k, e, s := Stopping(1), AdderMoves(0, 7, 0), Quiet([], Entering);
    run := Then(k, 1, 1, [], e, s);
    s := s.(lock := Some(TheAdder(0)), adders := [Adding(7)], offered := [7]);
    run := Then(k, 1, 1, run, e, s);
    s := s.(queue := [7], accepted := [7], adders := [Signalling]);
    run := Then(k, 1, 1, run, e, s);
    s := s.(adders := [Unlocking]);
    assert Signalled([Entering], 0) == [Entering];
    run := Then(k, 1, 1, run, e, s);
  }

  lemma ThenClose(run0: seq<Event>) returns (run: seq<Event>)
    requires Run(Stopping(1), 1, 1, run0) == Quiet([7], Entering)
    ensures Run(Stopping(1), 1, 1, run) ==
            Quiet([7], Entering).(shutdown := true, destroyer := Joining, acceptedBefore := 1, leftBehind := 1)
  {
    hide Run, Inv;
    var k, s := Stopping(1), Quiet([7], Entering);
    run := Then(k, 1, 1, run0, DestroyerMoves, s);
    s := s.(lock := Some(TheDestroyer), destroyer := Closing);
    run := Then(k, 1, 1, run, DestroyerMoves, s);
    s := s.(shutdown := true, destroyer := Broadcasting, acceptedBefore := 1, leftBehind := 1);
    run := Then(k, 1, 1, run, DestroyerMoves, s);
    s := s.(destroyer := Releasing);
    assert DestroyerStep(s.(destroyer := Broadcasting)).workers == [Entering];
    run := Then(k, 1, 1, run, DestroyerMoves, s);
  }

  /** The stopping pool does lose tasks, although its header has it wait for all of them: a task is
      queued, the pool is shut down, and the worker, locking after that, leaves at once. */
  lemma StoppingPoolLosesTask() returns (run: seq<Event>)
    ensures var s := Run(Stopping(1), 1, 1, run);
            AllGone(s) && s.destroyer.Joining? && s.accepted == [7] && s.started == [] && s.leftBehind == 1
  {
    hide Run, Inv;
    run := AddOne();
    run := ThenClose(run);
    var k, e, s := Stopping(1), WorkerMoves(0), Run(Stopping(1), 1, 1, run);
    run := Then(k, 1, 1, run, e, s);
    s := s.(lock := Some(TheWorker(0)), workers := [Testing]);
    run := Then(k, 1, 1, run, e, s);
    s := s.(workers := [Taking]);
    run := Then(k, 1, 1, run, e, s);
    s := s.(acceptedAtExit := 1, workers := [Exiting]);
    run := Then(k, 1, 1, run, e, s);
  }

  lemma CloseIdlePool() returns (run: seq<Event>)
    ensures Run(Draining, 1, 1, run) == Quiet([], Entering).(shutdown := true, destroyer := Joining)
  {
    assert Initial(1, 1) == Quiet([], Entering);
    var k, s := Draining, Quiet([], Entering);
    assert Run(k, 1, 1, []) == s;
    hide Run, Inv;
    run := Then(k, 1, 1, [], DestroyerMoves, s);
    s := s.(lock := Some(TheDestroyer), destroyer := Closing);
    run := Then(k, 1, 1, run, DestroyerMoves, s);
    s := s.(shutdown := true, destroyer := Broadcasting);
    run := Then(k, 1, 1, run, DestroyerMoves, s);
    s := s.(destroyer := Releasing);
    assert DestroyerStep(s.(destroyer := Broadcasting)).workers == [Entering];
    run := Then(k, 1, 1, run, DestroyerMoves, s);
  }

  /** Such a late task can be lost: added after the only worker of an idle pool has gone, while destroy
      has not joined it yet. */
  lemma DrainingPoolLosesLateTask() returns (run: seq<Event>)
    ensures var s := Run(Draining, 1, 1, run);
            AllGone(s) && s.destroyer.Joining? && s.accepted == [7] && s.started == [] && s.acceptedBefore == 0
  {
    hide Run, Inv;
    run := CloseIdlePool();
    var k, e, s := Draining, WorkerMoves(0), Run(Draining, 1, 1, run);
    run := Then(k, 1, 1, run, e, s);
    s := s.(lock := Some(TheWorker(0)), workers := [Testing]);
    run := Then(k, 1, 1, run, e, s);
    s := s.(workers := [Taking]);
    run := Then(k, 1, 1, run, e, s);
    s := s.(workers := [Exiting]);
    run := Then(k, 1, 1, run, e, s);
    s := s.(lock := None, workers := [Exited]);
    e := AdderMoves(0, 7, 0);
    run := Then(k, 1, 1, run, e, s);
    s := s.(lock := Some(TheAdder(0)), adders := [Adding(7)], offered := [7]);
    run := Then(k, 1, 1, run, e, s);
  }
}
