/** The shared-memory ring between one collector and any number of processors. The collector
    takes no mutex; copying a line is many steps, and the other processes run between them. */
module LogRing {
  import opened Counting

  const MSG_MAX: nat := 1024
  // as many as fill the 4 MB of shared memory
  const MAX_LOGS: nat := 4096

  /** Where the collector is: reading the next line, waiting for a free slot, copying cell `k`,
      moving write_pos, posting the filled semaphore, finished. */
  datatype Collector = Fetching | Waiting | Copying(k: nat) | Moving | Posting | Finished

  /** Where a processor is: waiting for a filled slot, waiting for the mutex, copying, moving
      read_pos, giving the mutex back, posting the free semaphore, working on its copy. */
  datatype Processor =
    | Idle
    | Permitted
    | Reading(raw: string)
    | Advancing(raw: string)
    | Unlocking(raw: string)
    | Releasing(raw: string)
    | Handling(raw: string)

  datatype State = State(
    slots: seq<string>,
    writePos: int,
    readPos: int,
    free: int,
    filled: int,
    mutex: int,
    collector: Collector,
    processors: seq<Processor>,
    written: nat,                // lines put in the ring so far
    taken: seq<(nat, string)>    // who took what out of it, in order
  )

  datatype Actor = TheCollector | TheProcessor(w: nat)

  /** A line as strncpy leaves it in a field of `n` characters. */
  function Padded(line: string, n: nat): (field: string)
    requires |line| <= n
    ensures |field| == n
  {
    line + seq(n - |line|, _ => '\0')
  }

  function Field(line: string): (field: string)
    requires |line| < MSG_MAX
    ensures |field| == MSG_MAX && line <= field && field[MSG_MAX - 1] == '\0'
  {
    Padded(line, MSG_MAX)
  }

  /** The C string in a field of characters. */
  function UpToNul(field: string): string {
    if field == "" || field[0] == '\0' then "" else [field[0]] + UpToNul(field[1..])
  }

  lemma {:induction false} PaddingIsNoText(line: string, n: nat)
    requires |line| < n && '\0' !in line
    ensures UpToNul(Padded(line, n)) == line
  {
    if line != "" {
      assert Padded(line, n)[1..] == Padded(line[1..], n - 1);
      PaddingIsNoText(line[1..], n - 1);
    }
  }

  /** What fgets can return: shorter than the buffer, without a terminator inside. */
  ghost predicate ReadableFile(file: seq<string>) {
    forall line <- file :: |line| < MSG_MAX && '\0' !in line
  }

  function Initial(processors: nat): State {
    State(seq(MAX_LOGS, _ => seq(MSG_MAX, _ => '\0')), 0, 0, MAX_LOGS, 0, 1, Fetching, seq(processors, _ => Idle), 0, [])
  }

  predicate Sane(s: State) {
    && |s.slots| == MAX_LOGS && (forall i | 0 <= i < MAX_LOGS :: |s.slots[i]| == MSG_MAX)
    && 0 <= s.writePos < MAX_LOGS && 0 <= s.readPos < MAX_LOGS
  }

  /** The collector's next step on the given file; no step while it is blocked or finished. */
  function CollectorStep(s: State, file: seq<string>): State
    requires Sane(s)
  {
    match s.collector
    case Fetching => s.(collector := if s.written < |file| then Waiting else Finished)
    case Waiting => if s.free > 0 then s.(free := s.free - 1, collector := Copying(0)) else s
    case Copying(k) =>
      if k < MSG_MAX - 1 && s.written < |file| && |file[s.written]| < MSG_MAX then
        s.(slots := s.slots[s.writePos := s.slots[s.writePos][k := Field(file[s.written])[k]]],
           collector := Copying(k + 1))
      else s.(collector := Moving)
    case Moving => s.(writePos := (s.writePos + 1) % MAX_LOGS, written := s.written + 1, collector := Posting)
    case Posting => s.(filled := s.filled + 1, collector := Fetching)
    case Finished => s
  }

  /** strncpy reads no further than the first terminator and pads with terminators. */
  function NextCell(raw: string, slot: string): char
    requires |raw| < |slot|
  {
    if raw != "" && raw[|raw| - 1] == '\0' then '\0' else slot[|raw|]
  }

  /** The next step of processor `w`. */
  function ProcessorStep(s: State, w: nat): State
    requires Sane(s) && w < |s.processors|
  {
    match s.processors[w]
    case Idle => if s.filled > 0 then s.(filled := s.filled - 1, processors := s.processors[w := Permitted]) else s
    case Permitted => if s.mutex > 0 then s.(mutex := s.mutex - 1, processors := s.processors[w := Reading("")]) else s
    case Reading(raw) =>
      if |raw| < MSG_MAX then
        s.(processors := s.processors[w := Reading(raw + [NextCell(raw, s.slots[s.readPos])])])
      else s.(processors := s.processors[w := Advancing(raw)])
    case Advancing(raw) =>
      s.(readPos := (s.readPos + 1) % MAX_LOGS, taken := s.taken + [(w, raw)],
         processors := s.processors[w := Unlocking(raw)])
    case Unlocking(raw) => s.(mutex := s.mutex + 1, processors := s.processors[w := Releasing(raw)])
    case Releasing(raw) => s.(free := s.free + 1, processors := s.processors[w := Handling(raw)])
    case Handling(_) => s.(processors := s.processors[w := Idle])
  }

  function Step(s: State, file: seq<string>, a: Actor): State
    requires Sane(s)
  {
    match a
    case TheCollector => CollectorStep(s, file)
    case TheProcessor(w) => if w < |s.processors| then ProcessorStep(s, w) else s
  }

  // ---------- the invariant ----------

  predicate BeforeMove(p: Processor) {
    p.Permitted? || p.Reading? || p.Advancing?
  }

  predicate AfterMove(p: Processor) {
    p.Unlocking? || p.Releasing?
  }

  predicate HoldsMutex(p: Processor) {
    p.Reading? || p.Advancing? || p.Unlocking?
  }

  /** The collector holds a permit for a slot it has not filled yet. */
  predicate HoldsSlot(c: Collector) {
    c.Copying? || c.Moving?
  }

  function ReadCount(s: State): nat {
    |s.taken|
  }

  ghost predicate Counted(s: State) {
    && s.free == MAX_LOGS - s.written - Tally(HoldsSlot(s.collector)) + ReadCount(s) - Count(s.processors, AfterMove)
    && s.filled == s.written - Tally(s.collector.Posting?) - ReadCount(s) - Count(s.processors, BeforeMove)
    && s.mutex == 1 - Count(s.processors, HoldsMutex)
    && s.free >= 0 && s.filled >= 0 && s.mutex >= 0
  }

  ghost predicate SlotsHoldLines(s: State, file: seq<string>)
    requires Sane(s) && ReadableFile(file)
  {
    && ReadCount(s) <= s.written <= |file|
    && (forall i | ReadCount(s) <= i < s.written :: s.slots[i % MAX_LOGS] == Field(file[i]))
    && (forall i | 0 <= i < MAX_LOGS :: s.slots[i][MSG_MAX - 1] == '\0')
  }

  ghost predicate CollectorInPlace(s: State, file: seq<string>)
    requires Sane(s) && ReadableFile(file) && s.written <= |file|
  {
    && s.writePos == s.written % MAX_LOGS
    && (s.collector.Waiting? || HoldsSlot(s.collector) ==> s.written < |file|)
    && (s.collector.Copying? ==>
          s.collector.k < MSG_MAX && s.slots[s.writePos][..s.collector.k] == Field(file[s.written])[..s.collector.k])
    && (s.collector.Moving? ==> s.slots[s.writePos] == Field(file[s.written]))
    && (s.collector.Posting? ==> s.written > 0)
    && (s.collector.Finished? ==> s.written == |file|)
  }

  ghost predicate ProcessorsInPlace(s: State, file: seq<string>)
    requires ReadableFile(file) && s.written <= |file|
  {
    && s.readPos == ReadCount(s) % MAX_LOGS
    && forall w | 0 <= w < |s.processors| ::
         match s.processors[w]
         case Reading(raw) =>
           ReadCount(s) < s.written && |raw| <= MSG_MAX && raw == Field(file[ReadCount(s)])[..|raw|]
         case Advancing(raw) => ReadCount(s) < s.written && raw == Field(file[ReadCount(s)])
         case _ => true
  }

  ghost predicate TakenInOrder(s: State, file: seq<string>)
    requires ReadableFile(file) && s.written <= |file|
  {
    ReadCount(s) <= s.written && forall i | 0 <= i < ReadCount(s) :: s.taken[i].1 == Field(file[i])
  }

  ghost predicate Inv(s: State, file: seq<string>)
    requires ReadableFile(file)
  {
    Sane(s) && Counted(s) && SlotsHoldLines(s, file) && CollectorInPlace(s, file) &&
    ProcessorsInPlace(s, file) && TakenInOrder(s, file)
  }

  lemma InitialInv(n: nat, file: seq<string>)
    requires ReadableFile(file)
    ensures Inv(Initial(n), file)
  {
    var s := Initial(n);
    CountNone(s.processors, AfterMove);
    CountNone(s.processors, BeforeMove);
    CountNone(s.processors, HoldsMutex);
  }

  /** A slot being written is none of those that wait to be read. */
  lemma WrittenSlotIsApart(s: State, file: seq<string>)
    requires ReadableFile(file) && Inv(s, file) && HoldsSlot(s.collector)
    ensures forall i | ReadCount(s) <= i < s.written :: i % MAX_LOGS != s.writePos
  {
  }

  lemma CopyKeepsInv(s: State, file: seq<string>)
    requires ReadableFile(file) && Inv(s, file) && s.collector.Copying?
    ensures Inv(CollectorStep(s, file), file)
  {
    hide Count, Field;
    var k := s.collector.k;
    var slot, field := s.slots[s.writePos], Field(file[s.written]);
    if k < MSG_MAX - 1 {
      WrittenSlotIsApart(s, file);
      assert slot[k := field[k]][..k + 1] == field[..k + 1];
    } else {
      assert slot == slot[..k] + [slot[k]] && field == field[..k] + [field[k]];
    }
  }

  lemma MoveKeepsInv(s: State, file: seq<string>)
    requires ReadableFile(file) && Inv(s, file) && s.collector.Moving?
    ensures Inv(CollectorStep(s, file), file)
  {
    WrapAround(s.written);
    hide Count, Field;
    var s' := CollectorStep(s, file);
    assert Counted(s') && CollectorInPlace(s', file);
    assert ProcessorsInPlace(s', file);
  }

  lemma WrapAround(i: nat)
    ensures (i % MAX_LOGS + 1) % MAX_LOGS == (i + 1) % MAX_LOGS
  {
  }

  lemma CollectorKeepsInv(s: State, file: seq<string>)
    requires ReadableFile(file) && Inv(s, file)
    ensures Inv(CollectorStep(s, file), file)
  {
    match s.collector
    case Copying(_) => CopyKeepsInv(s, file);
    case Moving => MoveKeepsInv(s, file);
    case _ =>
  }

  // ---------- a processor's step ----------

  /** How the three counts change when processor `w` moves on to `p`. */
  lemma Recount(s: State, w: nat, p: Processor)
    requires w < |s.processors|
    ensures var q, ps := s.processors[w], s.processors[w := p];
            && Count(ps, BeforeMove) == Count(s.processors, BeforeMove) - Tally(BeforeMove(q)) + Tally(BeforeMove(p))
            && Count(ps, AfterMove) == Count(s.processors, AfterMove) - Tally(AfterMove(q)) + Tally(AfterMove(p))
            && Count(ps, HoldsMutex) == Count(s.processors, HoldsMutex) - Tally(HoldsMutex(q)) + Tally(HoldsMutex(p))
  {
    CountUpdate(s.processors, w, p, BeforeMove);
    CountUpdate(s.processors, w, p, AfterMove);
    CountUpdate(s.processors, w, p, HoldsMutex);
  }

  /** Only one processor is in the critical section. */
  lemma OneHolder(s: State, w1: nat, w2: nat)
    requires Counted(s) && w1 < |s.processors| && w2 < |s.processors| && w1 != w2
    requires HoldsMutex(s.processors[w1])
    ensures !HoldsMutex(s.processors[w2])
  {
    if HoldsMutex(s.processors[w2]) {
      CountTwo(s.processors, if w1 < w2 then w1 else w2, if w1 < w2 then w2 else w1, HoldsMutex);
    }
  }

  /** A processor before its move of read_pos has a filled slot to itself. */
  lemma PermitMeansFilled(s: State, w: nat)
    requires Counted(s) && w < |s.processors| && BeforeMove(s.processors[w])
    ensures ReadCount(s) < s.written
  {
    CountAtLeast(s.processors, w, BeforeMove);
  }

  lemma ProcessorKeepsCounts(s: State, w: nat)
    requires Sane(s) && Counted(s) && w < |s.processors|
    ensures Counted(ProcessorStep(s, w))
  {
    Recount(s, w, ProcessorStep(s, w).processors[w]);
  }

  lemma ReadingKeepsInv(s: State, file: seq<string>, w: nat)
    requires ReadableFile(file) && Inv(s, file) && w < |s.processors| && s.processors[w].Reading?
    ensures Inv(ProcessorStep(s, w), file)
  {
    ProcessorKeepsCounts(s, w);
    hide Counted;
    var raw := s.processors[w].raw;
    var slot := s.slots[s.readPos];
    var line := file[ReadCount(s)];
    assert slot == s.slots[ReadCount(s) % MAX_LOGS] == Field(line);
    if |raw| < MSG_MAX {
      assert NextCell(raw, slot) == Field(line)[|raw|];
      assert raw + [Field(line)[|raw|]] == Field(line)[..|raw| + 1];
    } else {
      assert Field(line)[..MSG_MAX] == Field(line);
    }
  }

  lemma AdvancingKeepsInv(s: State, file: seq<string>, w: nat)
    requires ReadableFile(file) && Inv(s, file) && w < |s.processors| && s.processors[w].Advancing?
    ensures Inv(ProcessorStep(s, w), file)
  {
    ProcessorKeepsCounts(s, w);
    forall v | 0 <= v < |s.processors| && v != w
      ensures !HoldsMutex(s.processors[v])
    {
      OneHolder(s, w, v);
    }
    WrapAround(ReadCount(s));
    PermitMeansFilled(s, w);
    hide Counted, Field;
    var s' := ProcessorStep(s, w);
    assert CollectorInPlace(s', file);
    assert ProcessorsInPlace(s', file);
    assert TakenInOrder(s', file);
  }

  lemma OtherKeepsInv(s: State, file: seq<string>, w: nat)
    requires ReadableFile(file) && Inv(s, file) && w < |s.processors|
    requires !s.processors[w].Reading? && !s.processors[w].Advancing?
    ensures Inv(ProcessorStep(s, w), file)
  {
    ProcessorKeepsCounts(s, w);
    if BeforeMove(s.processors[w]) {
      PermitMeansFilled(s, w);
    }
    hide Counted;
  }

  lemma StepKeepsInv(s: State, file: seq<string>, a: Actor)
    requires ReadableFile(file) && Inv(s, file)
    ensures Inv(Step(s, file, a), file) && |Step(s, file, a).processors| == |s.processors|
  {
    hide Inv;
    match a
    case TheCollector => CollectorKeepsInv(s, file);
    case TheProcessor(w) =>
      if w < |s.processors| {
        match s.processors[w]
        case Reading(_) => ReadingKeepsInv(s, file, w);
        case Advancing(_) => AdvancingKeepsInv(s, file, w);
        case _ => OtherKeepsInv(s, file, w);
      }
  }

  // ---------- every run ----------

  lemma StepKeepsSane(s: State, file: seq<string>, a: Actor)
    requires Sane(s)
    ensures Sane(Step(s, file, a))
  {
  }

  /** The state after the steps of `schedule`, in that order. */
  function Run(n: nat, file: seq<string>, schedule: seq<Actor>): (s: State)
    ensures Sane(s)
  {
    if schedule == [] then Initial(n)
    else
      var before := Run(n, file, schedule[..|schedule| - 1]);
      StepKeepsSane(before, file, schedule[|schedule| - 1]);
      Step(before, file, schedule[|schedule| - 1])
  }

  lemma {:induction false} RunKeepsInv(n: nat, file: seq<string>, schedule: seq<Actor>)
    requires ReadableFile(file)
    ensures Inv(Run(n, file, schedule), file) && |Run(n, file, schedule).processors| == n
  {
    hide Inv, Step, Sane;
    if schedule == [] {
      InitialInv(n, file);
    } else {
      RunKeepsInv(n, file, schedule[..|schedule| - 1]);
      StepKeepsInv(Run(n, file, schedule[..|schedule| - 1]), file, schedule[|schedule| - 1]);
    }
  }

  /** Whatever the interleaving, while the collector is writing a slot no processor is reading it. */
  lemma NoOverlap(n: nat, file: seq<string>, schedule: seq<Actor>, w: nat)
    requires ReadableFile(file)
    ensures var s := Run(n, file, schedule);
            HoldsSlot(s.collector) && w < |s.processors| && (s.processors[w].Reading? || s.processors[w].Advancing?) ==>
              s.writePos != s.readPos
  {
    RunKeepsInv(n, file, schedule);
    var s := Run(n, file, schedule);
    if HoldsSlot(s.collector) && w < |s.processors| && (s.processors[w].Reading? || s.processors[w].Advancing?) {
      WrittenSlotIsApart(s, file);
    }
  }

  /** Whatever the interleaving, what the processors have taken, in order, is the beginning of the
      file: each line by exactly one of them, complete, and none out of turn. */
  lemma TakenInCollectionOrder(n: nat, file: seq<string>, schedule: seq<Actor>)
    requires ReadableFile(file)
    ensures var s := Run(n, file, schedule);
            |s.taken| <= s.written <= |file| && forall i | 0 <= i < |s.taken| :: UpToNul(s.taken[i].1) == file[i]
  {
    RunKeepsInv(n, file, schedule);
    forall i | 0 <= i < |Run(n, file, schedule).taken|
      ensures UpToNul(Run(n, file, schedule).taken[i].1) == file[i]
    {
      PaddingIsNoText(file[i], MSG_MAX);
    }
  }

  predicate InFlight(p: Processor) {
    BeforeMove(p) || AfterMove(p)
  }

  lemma {:induction false} InFlightSplits(ps: seq<Processor>)
    ensures Count(ps, InFlight) == Count(ps, BeforeMove) + Count(ps, AfterMove)
  {
    if ps != [] {
      InFlightSplits(ps[1..]);
    }
  }

  /** The permits are conserved: free, filled and in flight they are always 4096. */
  lemma PermitsConserved(n: nat, file: seq<string>, schedule: seq<Actor>)
    requires ReadableFile(file)
    ensures var s := Run(n, file, schedule);
            s.free + s.filled + Tally(HoldsSlot(s.collector) || s.collector.Posting?) +
              Count(s.processors, InFlight) == 4096
  {
    RunKeepsInv(n, file, schedule);
    InFlightSplits(Run(n, file, schedule).processors);
  }

  /** At most one processor is ever between taking and returning the mutex. */
  lemma MutualExclusion(n: nat, file: seq<string>, schedule: seq<Actor>, w1: nat, w2: nat)
    requires ReadableFile(file)
    ensures var ps := Run(n, file, schedule).processors;
            w1 < |ps| && w2 < |ps| && HoldsMutex(ps[w1]) && HoldsMutex(ps[w2]) ==> w1 == w2
  {
    RunKeepsInv(n, file, schedule);
    var s := Run(n, file, schedule);
    if w1 < |s.processors| && w2 < |s.processors| && HoldsMutex(s.processors[w1]) && w1 != w2 {
      OneHolder(s, w1, w2);
    }
  }

  // ---------- no deadlock ----------

  predicate CanStep(s: State, file: seq<string>, a: Actor)
    requires Sane(s)
  {
    Step(s, file, a) != s
  }

  predicate AllDone(s: State, file: seq<string>) {
    s.collector.Finished? && |s.taken| == |file| && forall p <- s.processors :: p.Idle?
  }

  lemma BusyProcessorCanStep(s: State, file: seq<string>, w: nat)
    requires Sane(s) && w < |s.processors| && !s.processors[w].Idle? && !s.processors[w].Permitted?
    ensures CanStep(s, file, TheProcessor(w))
  {
    var s' := ProcessorStep(s, w);
    assert s'.processors[w] != s.processors[w];
  }

  lemma PermittedLeadsToStep(s: State, file: seq<string>, w: nat) returns (a: Actor)
    requires ReadableFile(file) && Inv(s, file) && w < |s.processors| && s.processors[w].Permitted?
    ensures CanStep(s, file, a)
  {
    if s.mutex > 0 {
      a := TheProcessor(w);
    } else {
      var v := CountFind(s.processors, HoldsMutex);
      BusyProcessorCanStep(s, file, v);
      a := TheProcessor(v);
    }
  }

  lemma AllIdleLeadsToStep(s: State, file: seq<string>) returns (a: Actor)
    requires ReadableFile(file) && Inv(s, file) && s.processors != [] && (forall p <- s.processors :: p.Idle?)
    requires !AllDone(s, file)
    ensures CanStep(s, file, a)
  {
    CountNone(s.processors, BeforeMove);
    CountNone(s.processors, AfterMove);
    a := TheCollector;
    if s.filled > 0 {
      a := TheProcessor(0);
      assert ProcessorStep(s, 0).filled != s.filled;
    }
  }

  /** In every reachable state somebody can take a step, unless the file has been read to its end
      and every line taken. */
  lemma NoDeadlock(n: nat, file: seq<string>, schedule: seq<Actor>) returns (a: Actor)
    requires ReadableFile(file) && n > 0
    ensures var s := Run(n, file, schedule); CanStep(s, file, a) || AllDone(s, file)
  {
    RunKeepsInv(n, file, schedule);
    var s := Run(n, file, schedule);
    a := TheCollector;
    if w :| 0 <= w < |s.processors| && !s.processors[w].Idle? {
      if s.processors[w].Permitted? {
        a := PermittedLeadsToStep(s, file, w);
      } else {
        BusyProcessorCanStep(s, file, w);
        a := TheProcessor(w);
      }
    } else if !AllDone(s, file) {
      a := AllIdleLeadsToStep(s, file);
    }
  }

  // ---------- every line is taken ----------

  function ProcessorWork(p: Processor): nat {
    match p
    case Idle => 0
    case Permitted => MSG_MAX + 6
    case Reading(raw) => if |raw| <= MSG_MAX then MSG_MAX - |raw| + 5 else 5
    case Advancing(_) => 4
    case Unlocking(_) => 3
    case Releasing(_) => 2
    case Handling(_) => 1
  }

  /** Within one line; the line itself accounts for more than this goes below zero. */
  function CollectorWork(c: Collector): int {
    match c
    case Fetching => 1
    case Waiting => 0
    case Copying(k) => -1 - k
    case Moving => -2 - MSG_MAX
    case Posting => MSG_MAX + 9
    case Finished => 0
  }

  /** A bound on the steps that change something. */
  function Work(s: State, file: seq<string>): int {
    3 * MSG_MAX * (|file| - s.written) + CollectorWork(s.collector) + (MSG_MAX + 7) * s.filled +
    Sum(s.processors, ProcessorWork)
  }

  lemma WorkIsNatural(s: State, file: seq<string>)
    requires ReadableFile(file) && Inv(s, file)
    ensures Work(s, file) >= 0
  {
    hide Sum, Field, Count;
  }

  lemma StepDoesWork(s: State, file: seq<string>, a: Actor)
    requires ReadableFile(file) && Inv(s, file) && CanStep(s, file, a)
    ensures Work(Step(s, file, a), file) < Work(s, file)
  {
    if a.TheProcessor? {
      ProcessorDoesWork(s, file, a.w);
    } else {
      hide Sum, Field, Count, SlotsHoldLines, ProcessorsInPlace, TakenInOrder;
    }
  }

  lemma ProcessorDoesWork(s: State, file: seq<string>, w: nat)
    requires Sane(s) && w < |s.processors| && ProcessorStep(s, w) != s
    ensures Work(ProcessorStep(s, w), file) < Work(s, file)
  {
    SumUpdate(s.processors, w, ProcessorStep(s, w).processors[w], ProcessorWork);
    hide Sum;
  }

  /** `rest` goes on after `schedule` with steps that change something. */
  ghost predicate Continues(n: nat, file: seq<string>, schedule: seq<Actor>, rest: seq<Actor>) {
    rest == [] ||
    var k := |rest| - 1;
    Continues(n, file, schedule, rest[..k]) && CanStep(Run(n, file, schedule + rest[..k]), file, rest[k])
  }

  lemma OneMore(n: nat, file: seq<string>, schedule: seq<Actor>, rest: seq<Actor>, a: Actor)
    requires Continues(n, file, schedule, rest) && CanStep(Run(n, file, schedule + rest), file, a)
    ensures Continues(n, file, schedule, rest + [a])
    ensures Run(n, file, schedule + (rest + [a])) == Step(Run(n, file, schedule + rest), file, a)
  {
    hide CanStep, Step;
    var longer := schedule + (rest + [a]);
    assert longer[..|longer| - 1] == schedule + rest && (rest + [a])[..|rest|] == rest;
  }

  /** Under every interleaving the processes come to rest. */
  lemma {:induction false} StepsAreBounded(n: nat, file: seq<string>, schedule: seq<Actor>, rest: seq<Actor>)
    requires ReadableFile(file) && Continues(n, file, schedule, rest)
    ensures |rest| + Work(Run(n, file, schedule + rest), file) <= Work(Run(n, file, schedule), file)
  {
    hide Work, Step, CanStep;
    if rest == [] {
      assert schedule + rest == schedule;
    } else {
      var k := |rest| - 1;
      StepsAreBounded(n, file, schedule, rest[..k]);
      RunKeepsInv(n, file, schedule + rest[..k]);
      StepDoesWork(Run(n, file, schedule + rest[..k]), file, rest[k]);
      OneMore(n, file, schedule, rest[..k], rest[k]);
      assert rest[..k] + [rest[k]] == rest;
    }
  }

  /** And then every line has been taken: from every reachable state all of them get through. */
  lemma EveryLineIsTaken(n: nat, file: seq<string>, schedule: seq<Actor>) returns (rest: seq<Actor>)
    requires ReadableFile(file) && n > 0
    ensures Continues(n, file, schedule, rest) && AllDone(Run(n, file, schedule + rest), file)
  {
    rest := ContinueFrom(n, file, schedule, []);
  }

  lemma {:induction false} ContinueFrom(n: nat, file: seq<string>, schedule: seq<Actor>, rest0: seq<Actor>)
    returns (rest: seq<Actor>)
    requires ReadableFile(file) && n > 0 && Continues(n, file, schedule, rest0)
    ensures Continues(n, file, schedule, rest) && AllDone(Run(n, file, schedule + rest), file)
    decreases Work(Run(n, file, schedule + rest0), file)
  {
    hide Work, Run, Step, CanStep, Continues, AllDone, Inv;
    rest := rest0;
    if !AllDone(Run(n, file, schedule + rest0), file) {
      var a := NoDeadlock(n, file, schedule + rest0);
      RunKeepsInv(n, file, schedule + rest0);
      WorkIsNatural(Run(n, file, schedule + rest0), file);
      StepDoesWork(Run(n, file, schedule + rest0), file, a);
      OneMore(n, file, schedule, rest0, a);
      rest := ContinueFrom(n, file, schedule, rest0 + [a]);
    }
  }
}
