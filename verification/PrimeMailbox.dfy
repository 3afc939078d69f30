/** One variable under a mutex, through which the main thread hands out the numbers lo .. hi to any
    number of workers: 0 is empty, a positive value a number nobody has taken, -1 the end. Every
    lock, unlock, test and update is a step of its own. */
module PrimeMailbox {
  import opened Counting
  import opened Options
  import opened Primes

  /** The main thread with number `i` to place, where hi + 1 stands for the final -1: about to lock;
      holding the mutex at the polling test; placed and about to unlock; waiting for the workers. */
  datatype Main = Wanting(i: int) | Polling(i: int) | Placed(i: int) | Joining

  /** A worker: about to lock; holding the mutex; holding it with the number copied; about to unlock
      with the number, or without one, or to leave; testing the number; gone. */
  datatype Worker =
    | Looking | Holding | Copied(n: int) | Releasing(n: int) | GivingUp | Leaving | Testing(n: int) | Gone

  datatype Holder = TheMain | TheWorker(w: nat)

  datatype State = State(
    mutex: Option<Holder>,
    job: int,
    main: Main,
    workers: seq<Worker>,
    handed: seq<(int, nat)>,    // which number went to which worker, in order
    tested: set<int>,
    reported: multiset<int>     // the numbers printed as prime
  )

  datatype Event = MainMoves | WorkerMoves(w: nat)

  function Initial(lo: int, workers: nat): State {
    State(None, 0, Wanting(lo), seq(workers, _ => Looking), [], {}, multiset{})
  }

  /** What is stored for number `i`. */
  function Stored(i: int, hi: int): int {
    if i <= hi then i else -1
  }

  function MainStep(s: State, hi: int): State {
    match s.main
    case Wanting(i) => if s.mutex.Some? then s else s.(mutex := Some(TheMain), main := Polling(i))
    case Polling(i) =>
      if s.job > 0 then s.(mutex := None, main := Wanting(i)) else s.(job := Stored(i, hi), main := Placed(i))
    case Placed(i) => s.(mutex := None, main := if i <= hi then Wanting(i + 1) else Joining)
    case Joining => s
  }

  function WorkerStep(s: State, w: nat): State
    requires w < |s.workers|
  {
    match s.workers[w]
    case Looking => if s.mutex.Some? then s else s.(mutex := Some(TheWorker(w)), workers := s.workers[w := Holding])
    case Holding =>
      s.(workers := s.workers[w := if s.job == -1 then Leaving else if s.job == 0 then GivingUp else Copied(s.job)])
    case Copied(n) => s.(job := 0, handed := s.handed + [(n, w)], workers := s.workers[w := Releasing(n)])
    case Releasing(n) => s.(mutex := None, workers := s.workers[w := Testing(n)])
    case GivingUp => s.(mutex := None, workers := s.workers[w := Looking])
    case Leaving => s.(mutex := None, workers := s.workers[w := Gone])
    case Testing(n) =>
      s.(tested := s.tested + {n}, reported := if Prime(n) then s.reported + multiset{n} else s.reported,
         workers := s.workers[w := Looking])
    case Gone => s
  }

  function Step(s: State, hi: int, e: Event): State {
    match e
    case MainMoves => MainStep(s, hi)
    case WorkerMoves(w) => if w < |s.workers| then WorkerStep(s, w) else s
  }

  // ---------- the invariant ----------

  predicate HoldsMutex(p: Worker) {
    !p.Looking? && !p.Testing? && !p.Gone?
  }

  ghost predicate MutexInv(s: State) {
    && (s.mutex.Some? && s.mutex.value.TheWorker? ==> s.mutex.value.w < |s.workers|)
    && (forall w | 0 <= w < |s.workers| :: HoldsMutex(s.workers[w]) <==> s.mutex == Some(TheWorker(w)))
    && (s.main.Polling? || s.main.Placed? <==> s.mutex == Some(TheMain))
  }

  /** How many numbers the main thread has placed. */
  function PlacedCount(s: State, lo: int, hi: int): int {
    match s.main
    case Wanting(i) => i - lo
    case Polling(i) => i - lo
    case Placed(i) => if i <= hi then i - lo + 1 else hi + 1 - lo
    case Joining => hi + 1 - lo
  }

  predicate EndPlaced(s: State, hi: int) {
    s.main.Joining? || (s.main.Placed? && s.main.i == hi + 1)
  }

  /** The numbers go out one by one in order; at most one is in the mailbox. */
  ghost predicate JobInv(s: State, lo: int, hi: int) {
    && (!s.main.Joining? ==> lo <= s.main.i <= hi + 1)
    && (forall j | 0 <= j < |s.handed| :: s.handed[j].0 == lo + j)
    && (s.job == -1 <==> EndPlaced(s, hi))
    && (s.job >= -1)
    && (s.job > 0 ==> s.job == lo + |s.handed| && |s.handed| + 1 == PlacedCount(s, lo, hi))
    && (s.job <= 0 ==> |s.handed| == PlacedCount(s, lo, hi))
    && (forall w | 0 <= w < |s.workers| ::
          match s.workers[w]
          case Copied(n) => s.job == n && n > 0
          case Leaving => s.job == -1
          case Gone => s.job == -1
          case _ => true)
  }

  /** The number in a worker's hands. */
  function Load(p: Worker): Option<int> {
    match p
    case Releasing(n) => Some(n)
    case Testing(n) => Some(n)
    case _ => None
  }

  /** Numbers handed out are in the hands of exactly one worker until they are tested. */
  ghost predicate LoadInv(s: State, lo: int) {
    && (forall w | 0 <= w < |s.workers| && Load(s.workers[w]).Some? ::
          lo <= Load(s.workers[w]).value < lo + |s.handed| && Load(s.workers[w]).value !in s.tested)
    && (forall v, w | 0 <= v < w < |s.workers| && Load(s.workers[v]).Some? :: Load(s.workers[v]) != Load(s.workers[w]))
    && (forall n <- s.tested :: lo <= n < lo + |s.handed|)
  }

  ghost predicate NoneForgotten(s: State, lo: int) {
    forall n | lo <= n < lo + |s.handed| ::
      n in s.tested || exists w :: 0 <= w < |s.workers| && Load(s.workers[w]) == Some(n)
  }

  ghost predicate ReportInv(s: State) {
    forall n :: s.reported[n] == if n in s.tested && Prime(n) then 1 else 0
  }

  ghost predicate Inv(s: State, lo: int, hi: int) {
    MutexInv(s) && JobInv(s, lo, hi) && LoadInv(s, lo) && NoneForgotten(s, lo) && ReportInv(s)
  }

  lemma InitialInv(lo: int, hi: int, workers: nat)
    requires 0 < lo <= hi + 1
    ensures Inv(Initial(lo, workers), lo, hi)
  {
  }

  lemma MainKeepsInv(s: State, lo: int, hi: int)
    requires 0 < lo <= hi + 1 && Inv(s, lo, hi)
    ensures Inv(MainStep(s, hi), lo, hi)
  {
    MainKeepsJob(s, lo, hi);
    hide JobInv, Prime;
    assert NoneForgotten(MainStep(s, hi), lo);
  }

  lemma MainKeepsJob(s: State, lo: int, hi: int)
    requires 0 < lo <= hi + 1 && Inv(s, lo, hi)
    ensures JobInv(MainStep(s, hi), lo, hi)
  {
    hide LoadInv, NoneForgotten, ReportInv;
  }

  lemma WorkerKeepsMutex(s: State, lo: int, hi: int, w: nat)
    requires 0 < lo <= hi + 1 && Inv(s, lo, hi) && w < |s.workers|
    ensures MutexInv(WorkerStep(s, w))
  {
    hide LoadInv, NoneForgotten, ReportInv, JobInv;
  }

  lemma WorkerKeepsJob(s: State, lo: int, hi: int, w: nat)
    requires 0 < lo <= hi + 1 && Inv(s, lo, hi) && w < |s.workers|
    ensures JobInv(WorkerStep(s, w), lo, hi)
  {
    hide LoadInv, NoneForgotten, ReportInv;
  }

  lemma WorkerKeepsLoads(s: State, lo: int, hi: int, w: nat)
    requires 0 < lo <= hi + 1 && Inv(s, lo, hi) && w < |s.workers|
    ensures LoadInv(WorkerStep(s, w), lo)
  {
    hide NoneForgotten, ReportInv, Prime;
  }

  lemma WorkerForgetsNone(s: State, lo: int, hi: int, w: nat)
    requires 0 < lo <= hi + 1 && Inv(s, lo, hi) && w < |s.workers|
    ensures NoneForgotten(WorkerStep(s, w), lo)
  {
    hide LoadInv, ReportInv, MutexInv, Prime;
    var s' := WorkerStep(s, w);
    forall n | lo <= n < lo + |s'.handed| && n !in s'.tested
      ensures exists v :: 0 <= v < |s'.workers| && Load(s'.workers[v]) == Some(n)
    {
      if n == lo + |s.handed| {
        assert Load(s'.workers[w]) == Some(n);
      } else {
        var v :| 0 <= v < |s.workers| && Load(s.workers[v]) == Some(n);
        assert Load(s'.workers[v]) == Some(n);
      }
    }
  }

  lemma WorkerKeepsReports(s: State, lo: int, hi: int, w: nat)
    requires 0 < lo <= hi + 1 && Inv(s, lo, hi) && w < |s.workers|
    ensures ReportInv(WorkerStep(s, w))
  {
    hide NoneForgotten, MutexInv, JobInv, Prime;
  }

  lemma StepKeepsInv(s: State, lo: int, hi: int, e: Event)
    requires 0 < lo <= hi + 1 && Inv(s, lo, hi)
    ensures Inv(Step(s, hi, e), lo, hi) && |Step(s, hi, e).workers| == |s.workers|
  {
    SameWorkers(s, hi, e);
    hide MainStep, WorkerStep, MutexInv, JobInv, LoadInv, NoneForgotten, ReportInv;
    match e
    case MainMoves => MainKeepsInv(s, lo, hi);
    case WorkerMoves(w) =>
      if w < |s.workers| {
        WorkerKeepsMutex(s, lo, hi, w);
        WorkerKeepsJob(s, lo, hi, w);
        WorkerKeepsLoads(s, lo, hi, w);
        WorkerForgetsNone(s, lo, hi, w);
        WorkerKeepsReports(s, lo, hi, w);
      }
  }

  lemma SameWorkers(s: State, hi: int, e: Event)
    ensures |Step(s, hi, e).workers| == |s.workers|
  {
  }

  // ---------- every run ----------

  /** The state after the events of `run`, in that order. */
  function Run(lo: int, hi: int, workers: nat, run: seq<Event>): State {
    if run == [] then Initial(lo, workers)
    else Step(Run(lo, hi, workers, run[..|run| - 1]), hi, run[|run| - 1])
  }

  lemma {:induction false} RunKeepsInv(lo: int, hi: int, workers: nat, run: seq<Event>)
    requires 0 < lo <= hi + 1
    ensures var s := Run(lo, hi, workers, run); Inv(s, lo, hi) && |s.workers| == workers
  {
    hide Inv, Step;
    if run == [] {
      InitialInv(lo, hi, workers);
    } else {
      RunKeepsInv(lo, hi, workers, run[..|run| - 1]);
      StepKeepsInv(Run(lo, hi, workers, run[..|run| - 1]), lo, hi, run[|run| - 1]);
    }
  }

  /** Each number is handed to exactly one worker, in order. */
  lemma HandedOnce(lo: int, hi: int, workers: nat, run: seq<Event>)
    requires 0 < lo <= hi + 1
    ensures var s := Run(lo, hi, workers, run);
            |s.handed| <= hi + 1 - lo && forall j | 0 <= j < |s.handed| :: s.handed[j].0 == lo + j
  {
    RunKeepsInv(lo, hi, workers, run);
  }

  // ---------- the end is always within reach ----------

  /** What the main thread has still to place, the final -1 included. */
  function Unplaced(s: State, hi: int): int {
    match s.main
    case Wanting(i) => hi + 2 - i
    case Polling(i) => hi + 2 - i
    case Placed(i) => hi + 1 - i
    case Joining => 0
  }

  /** It gets smaller whenever a number is placed and whenever one is taken out. */
  function Undone(s: State, hi: int): int {
    2 * Unplaced(s, hi) + if s.job > 0 then 1 else 0
  }

  function MainWork(m: Main, job: int): nat {
    match m
    case Placed(_) => if job > 0 then 2 else 4
    case Polling(_) => 1
    case Wanting(_) => if job > 0 then 0 else 2
    case Joining => 0
  }

  /** Steps to where a worker waits, while the mailbox is empty. */
  function IdleWork(p: Worker): nat {
    match p
    case Looking => 0
    case GivingUp => 1
    case Holding => 2
    case Testing(_) => 4
    case Releasing(_) => 5
    case Copied(_) => 9
    case Leaving => 9
    case Gone => 0
  }

  /** Steps to a worker's next number, or to its end, while the mailbox holds one. */
  function BusyWork(p: Worker): nat {
    match p
    case Gone => 0
    case Copied(_) => 4
    case Leaving => 4
    case Holding => 5
    case Looking => 6
    case Testing(_) => 7
    case Releasing(_) => 8
    case GivingUp => 9
  }

  function WorkersWork(s: State): nat {
    if s.job == 0 then Sum(s.workers, IdleWork) else Sum(s.workers, BusyWork)
  }

  function Work(s: State): nat {
    MainWork(s.main, s.job) + WorkersWork(s)
  }

  /** Nearer to the end: less to be placed or taken, or as much and fewer steps to the next of it. */
  predicate Nearer(s: State, t: State, hi: int) {
    0 <= Undone(s, hi) < Undone(t, hi) || (0 <= Undone(s, hi) == Undone(t, hi) && Work(s) < Work(t))
  }

  ghost predicate AllGone(s: State) {
    forall p <- s.workers :: p.Gone?
  }

  lemma MainGetsOn(s: State, lo: int, hi: int)
    requires 0 < lo <= hi + 1 && Inv(s, lo, hi)
    requires s.mutex == Some(TheMain) || (s.mutex.None? && s.job == 0)
    ensures Nearer(MainStep(s, hi), s, hi)
  {
    hide LoadInv, NoneForgotten, ReportInv, Sum;
  }

  lemma WorkerGetsOn(s: State, lo: int, hi: int, w: nat)
    requires 0 < lo <= hi + 1 && Inv(s, lo, hi) && w < |s.workers| && !s.workers[w].Gone?
    requires s.mutex == Some(TheWorker(w)) || (s.mutex.None? && s.job != 0)
    ensures Nearer(WorkerStep(s, w), s, hi)
  {
    hide LoadInv, NoneForgotten, ReportInv, Prime;
    SumUpdate(s.workers, w, WorkerStep(s, w).workers[w], IdleWork);
    SumUpdate(s.workers, w, WorkerStep(s, w).workers[w], BusyWork);
    hide Sum;
  }

  /** In every reachable state, unless all workers are gone, somebody has a step that brings the end
      nearer: polling and giving up do not count. */
  lemma NoDeadlock(lo: int, hi: int, workers: nat, run: seq<Event>) returns (e: Event)
    requires 0 < lo <= hi + 1
    ensures var s := Run(lo, hi, workers, run); AllGone(s) || Nearer(Step(s, hi, e), s, hi)
  {
    var s := Run(lo, hi, workers, run);
    RunKeepsInv(lo, hi, workers, run);
    hide Run, Nearer;
    e := MainMoves;
    if w :| 0 <= w < |s.workers| && !s.workers[w].Gone? {
      if s.mutex == Some(TheMain) || (s.mutex.None? && s.job == 0) {
        MainGetsOn(s, lo, hi);
      } else {
        var v := if s.mutex.Some? then s.mutex.value.w else w;
        e := WorkerMoves(v);
        WorkerGetsOn(s, lo, hi, v);
      }
    }
  }

  lemma Then(lo: int, hi: int, workers: nat, run: seq<Event>, rest: seq<Event>, e: Event)
    ensures Run(lo, hi, workers, run + (rest + [e])) == Step(Run(lo, hi, workers, run + rest), hi, e)
  {
    hide Step;
    var longer := run + (rest + [e]);
    assert longer[..|longer| - 1] == run + rest;
  }

  lemma {:induction false} GoOn(lo: int, hi: int, workers: nat, run: seq<Event>, rest0: seq<Event>)
    returns (rest: seq<Event>)
    requires 0 < lo <= hi + 1
    ensures AllGone(Run(lo, hi, workers, run + rest))
    decreases Undone(Run(lo, hi, workers, run + rest0), hi), Work(Run(lo, hi, workers, run + rest0))
  {
    hide Run, Step, AllGone, Undone, Work;
    rest := rest0;
    if !AllGone(Run(lo, hi, workers, run + rest0)) {
      var e := NoDeadlock(lo, hi, workers, run + rest0);
      Then(lo, hi, workers, run, rest0, e);
      rest := GoOn(lo, hi, workers, run, rest0 + [e]);
    }
  }

  /** From every reachable state the run can be continued until all workers are gone, and then every
      prime of the range has been reported. */
  lemma EveryPrimeIsReported(lo: int, hi: int, workers: nat, run: seq<Event>) returns (rest: seq<Event>)
    requires 0 < lo <= hi + 1 && workers > 0
    ensures var s := Run(lo, hi, workers, run + rest);
            && AllGone(s) && |s.handed| == hi + 1 - lo
            && forall n :: s.reported[n] == if lo <= n <= hi && Prime(n) then 1 else 0
  {
    rest := GoOn(lo, hi, workers, run, []);
    RunKeepsInv(lo, hi, workers, run + rest);
    hide Run, Prime;
    AllGoneMeansTested(Run(lo, hi, workers, run + rest), lo, hi);
  }

  /** When all workers are gone, exactly the primes of the range have been reported, once each. */
  lemma ReportsExactlyThePrimes(lo: int, hi: int, workers: nat, run: seq<Event>)
    requires 0 < lo <= hi + 1
    ensures var s := Run(lo, hi, workers, run);
            s.workers != [] && (forall p <- s.workers :: p.Gone?) ==>
              && |s.handed| == hi + 1 - lo
              && forall n :: s.reported[n] == if lo <= n <= hi && Prime(n) then 1 else 0
  {
    RunKeepsInv(lo, hi, workers, run);
    var s := Run(lo, hi, workers, run);
    if s.workers != [] && forall p <- s.workers :: p.Gone? {
      AllGoneMeansTested(s, lo, hi);
    }
  }

  lemma AllGoneMeansTested(s: State, lo: int, hi: int)
    requires 0 < lo <= hi + 1 && Inv(s, lo, hi)
    requires s.workers != [] && forall p <- s.workers :: p.Gone?
    ensures |s.handed| == hi + 1 - lo
    ensures forall n :: s.reported[n] == if lo <= n <= hi && Prime(n) then 1 else 0
  {
    hide Prime;
    assert s.workers[0] in s.workers;
    assert forall w | 0 <= w < |s.workers| :: s.workers[w] in s.workers;
    assert forall n | lo <= n < lo + |s.handed| :: n in s.tested;
  }
}
