/** The gateway's ring of sensor records: any number of tasks push under a mutex and post a
    semaphore after giving it back; one thread waits on the semaphore and takes records out in
    batches. Each statement of the push and pop sections is a step of its own. */
module GatewayRing {
  import opened Options
  import opened Counting

  const MAX_QUEUE_SIZE: nat := 1024
  const BATCH_SIZE: nat := 50

  datatype Record = Record(sensorId: nat, sensorData: real)

  /** A pushing task: outside; holding the mutex with a record; about to write it; about to move the
      head; about to unlock; about to post; holding the mutex with a record that found no room. */
  datatype Producer =
    | Outside | Testing(rec: Record) | Writing(rec: Record) | Moving(rec: Record) | Unlocking | Posting | Dropping

  /** The uploading thread: waiting for the semaphore; waiting for the mutex; about to copy a record;
      about to move the tail past it; deciding whether to take another; about to unlock; uploading. */
  datatype Consumer =
    | Waiting
    | Permitted
    | Copying(batch: seq<Record>)
    | Passing(batch: seq<Record>)
    | Trying(batch: seq<Record>)
    | Releasing(batch: seq<Record>)
    | Uploading(batch: seq<Record>)

  datatype Holder = TheProducer(p: nat) | TheConsumer

  datatype State = State(
    ring: seq<Record>,
    head: int,
    tail: int,
    sem: int,
    mutex: Option<Holder>,
    producers: seq<Producer>,
    consumer: Consumer,
    pushed: seq<Record>,        // every record put in the ring, in order
    popped: nat,                // how many of them have left it
    batches: seq<seq<Record>>,  // what has been handed to the upload
    offered: seq<Record>,       // every record a task came in with, in the order of the locking
    dropped: seq<Record>        // those that found no room
  )

  datatype Event = ProducerMoves(p: nat, rec: Record) | ConsumerMoves

  function Initial(producers: nat): State {
    State(seq(MAX_QUEUE_SIZE, _ => Record(0, 0.0)), 0, 0, 0, None, seq(producers, _ => Outside), Waiting,
          [], 0, [], [], [])
  }

  predicate Sane(s: State) {
    |s.ring| == MAX_QUEUE_SIZE && 0 <= s.head < MAX_QUEUE_SIZE && 0 <= s.tail < MAX_QUEUE_SIZE
  }

  function ProducerStep(s: State, p: nat, rec: Record): State
    requires Sane(s) && p < |s.producers|
  {
    match s.producers[p]
    case Outside =>
      if s.mutex.Some? then s
      else s.(mutex := Some(TheProducer(p)), producers := s.producers[p := Testing(rec)], offered := s.offered + [rec])
    case Testing(r) =>
      if (s.head + 1) % MAX_QUEUE_SIZE != s.tail then s.(producers := s.producers[p := Writing(r)])
      else s.(producers := s.producers[p := Dropping], dropped := s.dropped + [r])
    case Writing(r) => s.(ring := s.ring[s.head := r], producers := s.producers[p := Moving(r)])
    case Moving(r) =>
      s.(head := (s.head + 1) % MAX_QUEUE_SIZE, pushed := s.pushed + [r], producers := s.producers[p := Unlocking])
    case Unlocking => s.(mutex := None, producers := s.producers[p := Posting])
    case Posting => s.(sem := s.sem + 1, producers := s.producers[p := Outside])
    case Dropping => s.(mutex := None, producers := s.producers[p := Outside])
  }

  function ConsumerStep(s: State): State
    requires Sane(s)
  {
    match s.consumer
    case Waiting => if s.sem > 0 then s.(sem := s.sem - 1, consumer := Permitted) else s
    case Permitted => if s.mutex.Some? then s else s.(mutex := Some(TheConsumer), consumer := Copying([]))
    case Copying(b) => s.(consumer := Passing(b + [s.ring[s.tail]]))
    case Passing(b) => s.(tail := (s.tail + 1) % MAX_QUEUE_SIZE, popped := s.popped + 1, consumer := Trying(b))
    case Trying(b) =>
      if |b| < BATCH_SIZE && s.sem > 0 then s.(sem := s.sem - 1, consumer := Copying(b))
      else s.(consumer := Releasing(b))
    case Releasing(b) => s.(mutex := None, consumer := Uploading(b))
    case Uploading(b) => s.(batches := s.batches + [b], consumer := Waiting)
  }

  function Step(s: State, e: Event): State
    requires Sane(s)
  {
    match e
    case ProducerMoves(p, rec) => if p < |s.producers| then ProducerStep(s, p, rec) else s
    case ConsumerMoves => ConsumerStep(s)
  }

  // ---------- the invariant ----------

  function Flatten(batches: seq<seq<Record>>): seq<Record> {
    if batches == [] then [] else Flatten(batches[..|batches| - 1]) + batches[|batches| - 1]
  }

  predicate HoldsMutex(p: Producer) {
    !p.Outside? && !p.Posting?
  }

  predicate ConsumerHolds(c: Consumer) {
    c.Copying? || c.Passing? || c.Trying? || c.Releasing?
  }

  ghost predicate MutexInv(s: State) {
    && (s.mutex.Some? && s.mutex.value.TheProducer? ==> s.mutex.value.p < |s.producers|)
    && (forall p | 0 <= p < |s.producers| :: HoldsMutex(s.producers[p]) <==> s.mutex == Some(TheProducer(p)))
    && (ConsumerHolds(s.consumer) <==> s.mutex == Some(TheConsumer))
  }

  function Queued(s: State): int {
    |s.pushed| - s.popped
  }

  ghost predicate RingInv(s: State) {
    && Sane(s) && 0 <= Queued(s) < MAX_QUEUE_SIZE
    && s.head == |s.pushed| % MAX_QUEUE_SIZE && s.tail == s.popped % MAX_QUEUE_SIZE
    && (forall i | s.popped <= i < |s.pushed| :: s.ring[i % MAX_QUEUE_SIZE] == s.pushed[i])
    && (forall p | 0 <= p < |s.producers| ::
          match s.producers[p]
          case Writing(_) => Queued(s) < MAX_QUEUE_SIZE - 1
          case Moving(r) => Queued(s) < MAX_QUEUE_SIZE - 1 && s.ring[s.head] == r
          case Dropping => Queued(s) == MAX_QUEUE_SIZE - 1
          case _ => true)
  }

  /** Pushed, but not posted yet. */
  predicate PostDue(p: Producer) {
    p.Unlocking? || p.Posting?
  }

  /** Waited for, but not popped yet. */
  predicate PopDue(c: Consumer) {
    c.Permitted? || c.Copying? || c.Passing?
  }

  /** The semaphore counts the records, up to the posts and pops that are under way. */
  ghost predicate SemInv(s: State) {
    s.sem >= 0 && Queued(s) == s.sem + Count(s.producers, PostDue) + Tally(PopDue(s.consumer))
  }

  function Batch(c: Consumer): seq<Record> {
    match c
    case Waiting => []
    case Permitted => []
    case Copying(b) => b
    case Passing(b) => b
    case Trying(b) => b
    case Releasing(b) => b
    case Uploading(b) => b
  }

  ghost predicate BatchInv(s: State) {
    && 0 <= s.popped <= |s.pushed|
    && (s.consumer.Copying? ==> |s.consumer.batch| < BATCH_SIZE)
    && (s.consumer.Passing? || s.consumer.Trying? || s.consumer.Releasing? || s.consumer.Uploading? ==>
          1 <= |s.consumer.batch| <= BATCH_SIZE)
    && s.popped + Tally(s.consumer.Passing?) <= |s.pushed|
    && Flatten(s.batches) + Batch(s.consumer) == s.pushed[..s.popped + Tally(s.consumer.Passing?)]
    && forall b <- s.batches :: 1 <= |b| <= BATCH_SIZE
  }

  ghost predicate Inv(s: State) {
    MutexInv(s) && RingInv(s) && SemInv(s) && BatchInv(s)
  }

  lemma InitialInv(producers: nat)
    ensures Inv(Initial(producers))
  {
    CountNone(Initial(producers).producers, PostDue);
  }

  // ---------- every step keeps it ----------

  lemma ProducerKeepsMutex(s: State, p: nat, rec: Record)
    requires Inv(s) && p < |s.producers|
    ensures MutexInv(ProducerStep(s, p, rec))
  {
    hide SemInv, BatchInv;
  }

  lemma WrapAround(i: nat)
    ensures (i % MAX_QUEUE_SIZE + 1) % MAX_QUEUE_SIZE == (i + 1) % MAX_QUEUE_SIZE
  {
  }

  /** The test finds the ring full exactly when one cell less than all is in use. */
  lemma FullExactly(s: State)
    requires RingInv(s)
    ensures (s.head + 1) % MAX_QUEUE_SIZE == s.tail <==> Queued(s) == MAX_QUEUE_SIZE - 1
  {
    WrapAround(|s.pushed|);
  }

  lemma WriteKeepsRing(s: State, p: nat, rec: Record)
    requires Inv(s) && p < |s.producers| && s.producers[p].Writing?
    ensures RingInv(ProducerStep(s, p, rec))
  {
    hide SemInv, BatchInv;
    assert forall i | s.popped <= i < |s.pushed| :: i % MAX_QUEUE_SIZE != s.head;
  }

  lemma MoveKeepsRing(s: State, p: nat, rec: Record)
    requires Inv(s) && p < |s.producers| && s.producers[p].Moving?
    ensures RingInv(ProducerStep(s, p, rec))
  {
    hide SemInv, BatchInv;
    WrapAround(|s.pushed|);
  }

  lemma ProducerKeepsRing(s: State, p: nat, rec: Record)
    requires Inv(s) && p < |s.producers|
    ensures RingInv(ProducerStep(s, p, rec))
  {
    match s.producers[p]
    case Writing(_) => WriteKeepsRing(s, p, rec);
    case Moving(_) => MoveKeepsRing(s, p, rec);
    case _ =>
      FullExactly(s);
      hide SemInv, BatchInv;
  }

  lemma ProducerKeepsSem(s: State, p: nat, rec: Record)
    requires Inv(s) && p < |s.producers|
    ensures SemInv(ProducerStep(s, p, rec))
  {
    hide BatchInv;
    CountUpdate(s.producers, p, ProducerStep(s, p, rec).producers[p], PostDue);
  }

  lemma ProducerKeepsBatch(s: State, p: nat, rec: Record)
    requires Inv(s) && p < |s.producers|
    ensures BatchInv(ProducerStep(s, p, rec))
  {
    hide SemInv, MutexInv, Flatten;
    var s', n := ProducerStep(s, p, rec), s.popped + Tally(s.consumer.Passing?);
    assert s'.pushed[..n] == s.pushed[..n];
  }

  lemma ConsumerKeepsMutex(s: State)
    requires Inv(s)
    ensures MutexInv(ConsumerStep(s))
  {
    hide SemInv, BatchInv;
  }

  /** A pop always finds a record: the semaphore has promised it. */
  lemma PopFindsRecord(s: State)
    requires SemInv(s) && PopDue(s.consumer)
    ensures Queued(s) > 0
  {
  }

  lemma PassKeepsRing(s: State)
    requires Inv(s) && s.consumer.Passing?
    ensures RingInv(ConsumerStep(s))
  {
    PopFindsRecord(s);
    hide SemInv, BatchInv;
    WrapAround(s.popped);
  }

  lemma ConsumerKeepsRing(s: State)
    requires Inv(s)
    ensures RingInv(ConsumerStep(s))
  {
    if s.consumer.Passing? {
      PassKeepsRing(s);
    } else {
      hide SemInv, BatchInv;
    }
  }

  lemma ConsumerKeepsSem(s: State)
    requires Inv(s)
    ensures SemInv(ConsumerStep(s))
  {
    hide BatchInv;
  }

  lemma CopyKeepsBatch(s: State)
    requires Inv(s) && s.consumer.Copying?
    ensures BatchInv(ConsumerStep(s))
  {
    NextInLine(s);
    hide SemInv, MutexInv, RingInv;
    CopyExtends(s);
  }

  lemma NextInLine(s: State)
    requires Inv(s) && s.consumer.Copying?
    ensures Sane(s) && s.popped < |s.pushed| && s.ring[s.tail] == s.pushed[s.popped]
  {
    PopFindsRecord(s);
    hide SemInv, MutexInv, BatchInv;
  }

  lemma CopyExtends(s: State)
    requires Sane(s) && BatchInv(s) && s.consumer.Copying?
    requires s.popped < |s.pushed| && s.ring[s.tail] == s.pushed[s.popped]
    ensures BatchInv(ConsumerStep(s))
  {
    hide Flatten;
    var b, x := s.consumer.batch, s.ring[s.tail];
    assert s.pushed[..s.popped + 1] == s.pushed[..s.popped] + [x];
    assert Flatten(s.batches) + (b + [x]) == Flatten(s.batches) + b + [x];
  }

  lemma UploadKeepsBatch(s: State)
    requires Inv(s) && s.consumer.Uploading?
    ensures BatchInv(ConsumerStep(s))
  {
    hide SemInv, MutexInv, RingInv;
    var b := s.consumer.batch;
    var batches := s.batches + [b];
    assert batches[..|batches| - 1] == s.batches;
    assert Flatten(batches) + [] == Flatten(batches);
  }

  lemma ConsumerKeepsBatch(s: State)
    requires Inv(s)
    ensures BatchInv(ConsumerStep(s))
  {
    match s.consumer
    case Copying(_) => CopyKeepsBatch(s);
    case Uploading(_) => UploadKeepsBatch(s);
    case _ => RestKeepsBatch(s);
  }

  lemma RestKeepsBatch(s: State)
    requires Sane(s) && BatchInv(s) && !s.consumer.Copying? && !s.consumer.Uploading?
    ensures BatchInv(ConsumerStep(s))
  {
    hide Flatten;
  }

  lemma StepKeepsInv(s: State, e: Event)
    requires Inv(s)
    ensures Inv(Step(s, e)) && |Step(s, e).producers| == |s.producers|
  {
    assert Sane(s);
    hide MutexInv, RingInv, SemInv, BatchInv, ConsumerStep, ProducerStep;
    SameProducers(s, e);
    if e.ConsumerMoves? {
      ConsumerKeepsMutex(s);
      ConsumerKeepsRing(s);
      ConsumerKeepsSem(s);
      ConsumerKeepsBatch(s);
    } else if e.p < |s.producers| {
      ProducerKeepsMutex(s, e.p, e.rec);
      ProducerKeepsRing(s, e.p, e.rec);
      ProducerKeepsSem(s, e.p, e.rec);
      ProducerKeepsBatch(s, e.p, e.rec);
    }
  }

  lemma SameProducers(s: State, e: Event)
    requires Sane(s)
    ensures |Step(s, e).producers| == |s.producers|
  {
  }

  // ---------- every run ----------

  lemma StepKeepsSane(s: State, e: Event)
    requires Sane(s)
    ensures Sane(Step(s, e))
  {
  }

  /** The state after the events of `run`, in that order. */
  function Run(producers: nat, run: seq<Event>): (s: State)
    ensures Sane(s)
  {
    if run == [] then Initial(producers)
    else
      var before := Run(producers, run[..|run| - 1]);
      StepKeepsSane(before, run[|run| - 1]);
      Step(before, run[|run| - 1])
  }

  lemma {:induction false} RunKeepsInv(producers: nat, run: seq<Event>)
    ensures Inv(Run(producers, run)) && |Run(producers, run).producers| == producers
  {
    hide Inv, Step, Sane;
    if run == [] {
      InitialInv(producers);
    } else {
      RunKeepsInv(producers, run[..|run| - 1]);
      StepKeepsInv(Run(producers, run[..|run| - 1]), run[|run| - 1]);
    }
  }

  /** The records in the ring are those the semaphore still promises, those pushed but not posted
      and the one waited for but not popped; so no pop ever finds the ring empty. */
  lemma SemaphoreCountsRecords(producers: nat, run: seq<Event>)
    ensures var s := Run(producers, run);
            && Queued(s) == s.sem + Count(s.producers, PostDue) + Tally(PopDue(s.consumer))
            && (s.consumer.Copying? || s.consumer.Passing? ==> s.head != s.tail)
  {
    RunKeepsInv(producers, run);
    hide Run, MutexInv, BatchInv, Count;
    var s := Run(producers, run);
    NotEmptyExactly(s);
    if PopDue(s.consumer) {
      PopFindsRecord(s);
    }
  }

  lemma NotEmptyExactly(s: State)
    requires RingInv(s)
    ensures s.head != s.tail <==> Queued(s) > 0
  {
  }

  // ---------- every record is uploaded ----------

  /** A step of the uploading thread, or of a task that is in the middle of a push: no new push. */
  predicate Continues(s: State, e: Event) {
    e.ConsumerMoves? || (e.p < |s.producers| && !s.producers[e.p].Outside?)
  }

  predicate CanContinue(s: State, e: Event)
    requires Sane(s)
  {
    Continues(s, e) && Step(s, e) != s
  }

  /** Nobody pushes and the uploading thread waits for a record that is not there. */
  predicate Quiet(s: State) {
    s.consumer.Waiting? && s.sem == 0 && forall p <- s.producers :: p.Outside?
  }

  lemma ProducerMovesOn(s: State, p: nat)
    requires Sane(s) && p < |s.producers| && !s.producers[p].Outside?
    ensures CanContinue(s, ProducerMoves(p, Record(0, 0.0)))
  {
    assert ProducerStep(s, p, Record(0, 0.0)).producers[p] != s.producers[p];
  }

  lemma ConsumerMovesOn(s: State)
    requires Sane(s) && MutexInv(s)
    requires s.mutex.Some? ==> s.mutex.value.TheConsumer?
    requires s.consumer.Waiting? ==> s.sem > 0
    ensures CanContinue(s, ConsumerMoves)
  {
    assert ConsumerStep(s).consumer != s.consumer;
  }

  lemma BusyLeadsToStep(s: State) returns (e: Event)
    requires Sane(s) && MutexInv(s) && s.sem >= 0 && !Quiet(s)
    ensures CanContinue(s, e)
  {
    hide CanContinue;
    if s.mutex.Some? && s.mutex.value.TheProducer? {
      e := ProducerMoves(s.mutex.value.p, Record(0, 0.0));
      ProducerMovesOn(s, s.mutex.value.p);
    } else if p :| 0 <= p < |s.producers| && !s.producers[p].Outside? {
      e := ProducerMoves(p, Record(0, 0.0));
      ProducerMovesOn(s, p);
    } else {
      e := ConsumerMoves;
      ConsumerMovesOn(s);
    }
  }

  /** In every reachable state that is not quiet, the uploading thread or a task in the middle of a
      push can take a step. */
  lemma NoneStranded(producers: nat, run: seq<Event>) returns (e: Event)
    ensures Quiet(Run(producers, run)) || CanContinue(Run(producers, run), e)
  {
    RunKeepsInv(producers, run);
    hide Run, MutexInv, BatchInv, RingInv, CanContinue, Count, Quiet;
    e := ConsumerMoves;
    if !Quiet(Run(producers, run)) {
      e := BusyLeadsToStep(Run(producers, run));
    }
  }

  function ProducerWork(p: Producer): nat {
    match p
    case Outside => 0
    case Testing(_) => 12
    case Writing(_) => 11
    case Moving(_) => 10
    case Unlocking => 9
    case Posting => 8
    case Dropping => 1
  }

  function ConsumerWork(c: Consumer): nat {
    match c
    case Waiting => 0
    case Permitted => 6
    case Copying(_) => 5
    case Passing(_) => 4
    case Trying(_) => 3
    case Releasing(_) => 2
    case Uploading(_) => 1
  }

  /** A bound on the steps that can be taken before everything is quiet. */
  function Work(s: State): int {
    7 * s.sem + ConsumerWork(s.consumer) + Sum(s.producers, ProducerWork)
  }

  lemma StepDoesWork(s: State, e: Event)
    requires Sane(s) && CanContinue(s, e)
    ensures Work(Step(s, e)) < Work(s)
  {
    if e.ProducerMoves? {
      SumUpdate(s.producers, e.p, ProducerStep(s, e.p, e.rec).producers[e.p], ProducerWork);
    }
  }

  /** `rest` goes on after `run` with steps that change something and begin no new push. */
  ghost predicate Draining(producers: nat, run: seq<Event>, rest: seq<Event>) {
    rest == [] ||
    var k := |rest| - 1;
    Draining(producers, run, rest[..k]) && CanContinue(Run(producers, run + rest[..k]), rest[k])
  }

  lemma DrainingStep(producers: nat, run: seq<Event>, rest: seq<Event>, e: Event)
    requires Draining(producers, run, rest) && CanContinue(Run(producers, run + rest), e)
    ensures Draining(producers, run, rest + [e])
    ensures Run(producers, run + (rest + [e])) == Step(Run(producers, run + rest), e)
  {
    hide CanContinue, Step;
    var longer := run + (rest + [e]);
    assert longer[..|longer| - 1] == run + rest && (rest + [e])[..|rest|] == rest;
  }

  /** Such steps come to an end, whoever takes them. */
  lemma {:induction false} DrainingIsBounded(producers: nat, run: seq<Event>, rest: seq<Event>)
    requires Draining(producers, run, rest)
    ensures |rest| + Work(Run(producers, run + rest)) <= Work(Run(producers, run))
  {
    hide Work, Step, CanContinue;
    if rest == [] {
      assert run + rest == run;
    } else {
      var k := |rest| - 1;
      DrainingIsBounded(producers, run, rest[..k]);
      StepDoesWork(Run(producers, run + rest[..k]), rest[k]);
      DrainingStep(producers, run, rest[..k], rest[k]);
      assert rest[..k] + [rest[k]] == rest;
    }
  }

  /** And when no more can be taken every record pushed has been uploaded. */
  lemma QuietMeansUploaded(s: State)
    requires Inv(s) && Quiet(s)
    ensures Queued(s) == 0 && Flatten(s.batches) == s.pushed
  {
    CountNone(s.producers, PostDue);
    hide MutexInv, RingInv, Count;
    assert Flatten(s.batches) + [] == Flatten(s.batches);
  }

  /** From every reachable state, without a new push, everything pushed gets uploaded. */
  lemma EveryRecordIsUploaded(producers: nat, run: seq<Event>) returns (rest: seq<Event>)
    ensures Draining(producers, run, rest)
    ensures var s := Run(producers, run + rest);
            && Quiet(s) && Queued(s) == 0 && Flatten(s.batches) == s.pushed
            && multiset(s.offered) == multiset(Flatten(s.batches)) + multiset(s.dropped)
  {
    rest := DrainFrom(producers, run, []);
    RunKeepsInv(producers, run + rest);
    EveryOfferIsAnswered(producers, run + rest);
    hide Run, Inv, Draining, Flatten;
    QuietMeansUploaded(Run(producers, run + rest));
  }

  lemma {:induction false} DrainFrom(producers: nat, run: seq<Event>, rest0: seq<Event>) returns (rest: seq<Event>)
    requires Draining(producers, run, rest0)
    ensures Draining(producers, run, rest) && Quiet(Run(producers, run + rest))
    decreases Work(Run(producers, run + rest0))
  {
    hide Work, Run, Step, CanContinue, Draining, Quiet;
    rest := rest0;
    if !Quiet(Run(producers, run + rest0)) {
      var e := NoneStranded(producers, run + rest0);
      StepDoesWork(Run(producers, run + rest0), e);
      DrainingStep(producers, run, rest0, e);
      WorkIsNatural(producers, run + rest0);
      rest := DrainFrom(producers, run, rest0 + [e]);
    }
  }

  lemma WorkIsNatural(producers: nat, run: seq<Event>)
    ensures Work(Run(producers, run)) >= 0
  {
    RunKeepsInv(producers, run);
  }

  /** Records leave the ring once each, in the order they were pushed, in batches of 1 to 50. */
  lemma LeaveInPushOrder(producers: nat, run: seq<Event>)
    ensures var s := Run(producers, run);
            && Flatten(s.batches) + Batch(s.consumer) <= s.pushed && s.popped <= |s.pushed|
            && (s.consumer.Waiting? ==> Flatten(s.batches) == s.pushed[..s.popped])
            && forall b <- s.batches :: 1 <= |b| <= 50
  {
    RunKeepsInv(producers, run);
    hide Run, MutexInv, RingInv, SemInv;
    var s := Run(producers, run);
    assert Flatten(s.batches) + [] == Flatten(s.batches);
  }

  /** A batch is closed exactly when it holds 50 records or no record is left that has been posted. */
  lemma ClosesExactly(producers: nat, run: seq<Event>)
    ensures var s := Run(producers, run);
            s.consumer.Trying? ==>
              var c := Step(s, ConsumerMoves).consumer;
              && (c.Releasing? <==> |s.consumer.batch| == 50 || Queued(s) == Count(s.producers, PostDue))
              && (c.Copying? <==> !c.Releasing?) && Batch(c) == s.consumer.batch
  {
    RunKeepsInv(producers, run);
    hide Run, MutexInv, RingInv, Count;
  }

  // ---------- what is offered ----------

  /** The record a task holds the mutex with, not pushed and not dropped yet. */
  function InHand(s: State): seq<Record> {
    match s.mutex
    case Some(TheProducer(p)) => if p < |s.producers| then Load(s.producers[p]) else []
    case _ => []
  }

  function Load(p: Producer): seq<Record> {
    match p
    case Testing(r) => [r]
    case Writing(r) => [r]
    case Moving(r) => [r]
    case _ => []
  }

  ghost predicate OfferInv(s: State) {
    multiset(s.offered) == multiset(s.pushed) + multiset(s.dropped) + multiset(InHand(s))
  }

  lemma LockingKeepsOffer(s: State, p: nat, rec: Record)
    requires Sane(s) && OfferInv(s) && p < |s.producers| && s.producers[p].Outside?
    ensures OfferInv(ProducerStep(s, p, rec))
  {
    if s.mutex.None? {
      assert InHand(s) == [] && InHand(ProducerStep(s, p, rec)) == [rec];
      hide InHand;
    }
  }

  /** Dropping a record, or moving the head past it. */
  lemma DecidingKeepsOffer(s: State, p: nat, rec: Record)
    requires Sane(s) && MutexInv(s) && OfferInv(s) && p < |s.producers|
    requires s.producers[p].Moving? || s.producers[p].Testing?
    ensures OfferInv(ProducerStep(s, p, rec))
  {
    var s', r := ProducerStep(s, p, rec), s.producers[p].rec;
    assert InHand(s) == [r];
    assert s'.offered == s.offered;
    assert (s'.pushed == s.pushed && s'.dropped == s.dropped && InHand(s') == [r])
        || (s'.pushed == s.pushed && s'.dropped == s.dropped + [r] && InHand(s') == [])
        || (s'.pushed == s.pushed + [r] && s'.dropped == s.dropped && InHand(s') == []);
    hide InHand, MutexInv, ProducerStep;
  }

  lemma OthersKeepOffer(s: State, e: Event)
    requires Sane(s) && MutexInv(s)
    requires e.ProducerMoves? && e.p < |s.producers| ==>
               var p := s.producers[e.p]; !p.Outside? && !p.Testing? && !p.Moving?
    ensures var s' := Step(s, e);
            s'.offered == s.offered && s'.pushed == s.pushed && s'.dropped == s.dropped && InHand(s') == InHand(s)
  {
  }

  lemma StepKeepsOffer(s: State, e: Event)
    requires Sane(s) && MutexInv(s) && OfferInv(s)
    ensures OfferInv(Step(s, e))
  {
    if e.ProducerMoves? && e.p < |s.producers| && s.producers[e.p].Outside? {
      LockingKeepsOffer(s, e.p, e.rec);
    } else if e.ProducerMoves? && e.p < |s.producers| && (s.producers[e.p].Testing? || s.producers[e.p].Moving?) {
      DecidingKeepsOffer(s, e.p, e.rec);
    } else {
      OthersKeepOffer(s, e);
      hide InHand, MutexInv, ProducerStep, ConsumerStep;
    }
  }

  lemma {:induction false} RunKeepsOffer(producers: nat, run: seq<Event>)
    ensures OfferInv(Run(producers, run))
  {
    hide OfferInv, RingInv, SemInv, BatchInv, MutexInv, Step, Sane;
    if run == [] {
      NothingOffered(producers);
    } else {
      RunKeepsInv(producers, run[..|run| - 1]);
      RunKeepsOffer(producers, run[..|run| - 1]);
      StepKeepsOffer(Run(producers, run[..|run| - 1]), run[|run| - 1]);
    }
  }

  lemma NothingOffered(producers: nat)
    ensures OfferInv(Initial(producers))
  {
  }

  /** When no task is in the middle of a push, each record a task came in with has been pushed or
      dropped. */
  lemma EveryOfferIsAnswered(producers: nat, run: seq<Event>)
    ensures var s := Run(producers, run);
            (forall p <- s.producers :: p.Outside?) ==>
              multiset(s.offered) == multiset(s.pushed) + multiset(s.dropped)
  {
    RunKeepsOffer(producers, run);
    hide Run;
  }

  /** A record is turned away exactly when 1023 are queued; no other step drops one. */
  lemma DroppedOnlyWhenFull(producers: nat, run: seq<Event>, e: Event)
    ensures var s, s' := Run(producers, run), Run(producers, run + [e]);
            s'.dropped ==
              if e.ProducerMoves? && e.p < |s.producers| && s.producers[e.p].Testing? && Queued(s) == 1023
              then s.dropped + [s.producers[e.p].rec]
              else s.dropped
  {
    RunKeepsInv(producers, run);
    assert (run + [e])[..|run|] == run;
    hide MutexInv, SemInv, BatchInv, RingInv, Sane, Initial, Step, ProducerStep, ConsumerStep;
    DropsExactly(Run(producers, run), e);
  }

  lemma DropsExactly(s: State, e: Event)
    requires RingInv(s)
    ensures Step(s, e).dropped ==
              if e.ProducerMoves? && e.p < |s.producers| && s.producers[e.p].Testing? && Queued(s) == 1023
              then s.dropped + [s.producers[e.p].rec]
              else s.dropped
  {
    FullExactly(s);
    hide RingInv;
  }
}
