/** Whole runs of the alarm scheduler: tasks are added and alarms arrive in any order, at any times
    of a clock that need not be monotonic. Every filing, first or renewed, gets the next number. */
module AlarmRuns {
  import opened AlarmTheory

  datatype Firing = Firing(task: ScheduledTask, due: int, stamp: nat, time: int)

  datatype State = State(
    list: seq<Entry>,
    filed: map<ScheduledTask, nat>,   // the number of every task's latest filing
    count: nat,                       // filings and firings so far
    log: seq<Firing>
  )

  /** A task is a new object each time; adding one that is already known cannot happen and does nothing. */
  datatype Event = Add(task: ScheduledTask, due: int) | Alarm(now: int)

  function StampOf(filed: map<ScheduledTask, nat>, task: ScheduledTask): nat {
    if task in filed then filed[task] else 0
  }

  function FiringOf(e: Entry, filed: map<ScheduledTask, nat>, now: int): Firing {
    Firing(e.task, e.due, StampOf(filed, e.task), now)
  }

  /** One turn of the handler's loop. */
  function FireFirst(s: State, now: int): State
    requires s.list != []
  {
    var e := s.list[0];
    State(Refiled(s.list, now), if e.task.interval > 0 then s.filed[e.task := s.count] else s.filed, s.count + 1,
          s.log + [FiringOf(e, s.filed, now)])
  }

  function FireAll(s: State, now: int): State
    decreases DueCount(s.list, now)
  {
    if s.list == [] || s.list[0].due > now then s
    else
      RefiledIsLessDue(s.list, now);
      FireAll(FireFirst(s, now), now)
  }

  function Step(s: State, e: Event): State {
    match e
    case Add(task, due) =>
      if task in s.filed then s
      else State(Inserted(s.list, Entry(task, due)), s.filed[task := s.count], s.count + 1, s.log)
    case Alarm(now) => FireAll(s, now)
  }

  function Run(events: seq<Event>): State {
    if events == [] then State([], map[], 0, []) else Step(Run(events[..|events| - 1]), events[|events| - 1])
  }

  /** The list is the one the handler leaves. */
  lemma {:induction false} FireAllHarvests(s: State, now: int)
    ensures FireAll(s, now).list == Harvested(s.list, now)
    decreases DueCount(s.list, now)
  {
    if s.list != [] && s.list[0].due <= now {
      RefiledIsLessDue(s.list, now);
      FireAllHarvests(FireFirst(s, now), now);
    }
  }

  // ---------- the invariant: spacing ----------

  ghost predicate Follows(earlier: Firing, time: int) {
    earlier.task.interval > 0 && time >= earlier.time + earlier.task.interval
  }

  /** Two firings of one task are at least its interval apart; a task that runs once fires once. */
  ghost predicate Apart(log: seq<Firing>) {
    forall i, j | 0 <= i < j < |log| && log[i].task == log[j].task :: Follows(log[i], log[j].time)
  }

  /** So is the next one. */
  ghost predicate Ahead(list: seq<Entry>, log: seq<Firing>) {
    forall i, j | 0 <= i < |log| && 0 <= j < |list| && log[i].task == list[j].task :: Follows(log[i], list[j].due)
  }

  ghost predicate Known(list: seq<Entry>, log: seq<Firing>, known: set<ScheduledTask>) {
    (forall j | 0 <= j < |list| :: list[j].task in known) && (forall i | 0 <= i < |log| :: log[i].task in known)
  }

  ghost predicate Good(list: seq<Entry>, log: seq<Firing>, known: set<ScheduledTask>) {
    Sorted(list) && Distinct(list) && Known(list, log, known) && Apart(log) && Ahead(list, log)
  }

  // ---------- the invariant: order ----------

  predicate Before(due1: int, stamp1: nat, due2: int, stamp2: nat) {
    due1 < due2 || (due1 == due2 && stamp1 < stamp2)
  }

  /** By deadline, and by filing among equal deadlines. */
  ghost predicate Ordered(list: seq<Entry>, filed: map<ScheduledTask, nat>) {
    forall i, j | 0 <= i < j < |list| ::
      Before(list[i].due, StampOf(filed, list[i].task), list[j].due, StampOf(filed, list[j].task))
  }

  ghost predicate Numbered(filed: map<ScheduledTask, nat>, count: nat) {
    forall t <- filed :: filed[t] < count
  }

  ghost predicate Inv(s: State) {
    Good(s.list, s.log, s.filed.Keys) && Ordered(s.list, s.filed) && Numbered(s.filed, s.count)
  }

  // ---------- one firing ----------

  lemma FiringIsApart(list: seq<Entry>, log: seq<Firing>, known: set<ScheduledTask>, f: Firing)
    requires Good(list, log, known) && list != [] && f.task == list[0].task && list[0].due <= f.time
    ensures Apart(log + [f])
  {
  }

  lemma TailIsAhead(list: seq<Entry>, log: seq<Firing>, known: set<ScheduledTask>, f: Firing)
    requires Good(list, log, known) && list != [] && f.task == list[0].task && list[0].due <= f.time
    ensures Ahead(list[1..], log + [f])
    ensures Sorted(list[1..]) && Distinct(list[1..])
    ensures Known(list[1..], log + [f], known)
    ensures forall j | 0 <= j < |list[1..]| :: list[1..][j].task != list[0].task
  {
  }

  lemma InsertedMembers(list: seq<Entry>, e: Entry, j: nat)
    requires j < |Inserted(list, e)|
    ensures Inserted(list, e)[j] == e || exists i :: 0 <= i < |list| && list[i] == Inserted(list, e)[j]
  {
    var k := Position(list, e.due);
    if j < k {
      assert list[j] == Inserted(list, e)[j];
    } else if j > k {
      assert list[j - 1] == Inserted(list, e)[j];
    }
  }

  lemma InsertKeepsGood(list: seq<Entry>, e: Entry, log: seq<Firing>, known: set<ScheduledTask>)
    requires Good(list, log, known)
    requires forall j | 0 <= j < |list| :: list[j].task != e.task
    requires forall i | 0 <= i < |log| && log[i].task == e.task :: Follows(log[i], e.due)
    ensures Good(Inserted(list, e), log, known + {e.task})
  {
    InsertKeepsSorted(list, e);
    forall x | x in list
      ensures x.task != e.task
    {
    }
    InsertKeepsDistinct(list, e);
    hide Sorted, Distinct, Inserted, Apart;
    forall j | 0 <= j < |Inserted(list, e)|
      ensures Inserted(list, e)[j] == e || exists i :: 0 <= i < |list| && list[i] == Inserted(list, e)[j]
    {
      InsertedMembers(list, e, j);
    }
  }

  /** Nothing in the list is `task`, and everything in it has been filed. */
  ghost predicate Others(list: seq<Entry>, task: ScheduledTask, filed: map<ScheduledTask, nat>) {
    forall j | 0 <= j < |list| :: list[j].task in filed && list[j].task != task
  }

  lemma OlderStamp(list: seq<Entry>, task: ScheduledTask, filed: map<ScheduledTask, nat>, count: nat, j: nat)
    requires Numbered(filed, count) && Others(list, task, filed) && j < |list|
    ensures StampOf(filed[task := count], list[j].task) == StampOf(filed, list[j].task) < count
  {
  }

  lemma PairInOrder(list: seq<Entry>, filed: map<ScheduledTask, nat>, i: nat, j: nat)
    requires Ordered(list, filed) && i < j < |list|
    ensures Before(list[i].due, StampOf(filed, list[i].task), list[j].due, StampOf(filed, list[j].task))
  {
  }

  /** A task filed now goes behind those with its deadline, and its number is larger than theirs. */
  lemma InsertKeepsOrdered(list: seq<Entry>, e: Entry, filed: map<ScheduledTask, nat>, count: nat)
    requires Ordered(list, filed) && Numbered(filed, count) && Others(list, e.task, filed)
    ensures Ordered(Inserted(list, e), filed[e.task := count])
  {
    var k, r, f := Position(list, e.due), Inserted(list, e), filed[e.task := count];
    forall i, j | 0 <= i < j < |r|
      ensures Before(r[i].due, StampOf(f, r[i].task), r[j].due, StampOf(f, r[j].task))
    {
      InsertedPair(list, e, filed, count, i, j);
    }
  }

  lemma InsertedPair(list: seq<Entry>, e: Entry, filed: map<ScheduledTask, nat>, count: nat, i: nat, j: nat)
    requires Ordered(list, filed) && Numbered(filed, count) && Others(list, e.task, filed)
    requires i < j < |Inserted(list, e)|
    ensures var r, f := Inserted(list, e), filed[e.task := count];
            Before(r[i].due, StampOf(f, r[i].task), r[j].due, StampOf(f, r[j].task))
  {
    var k := Position(list, e.due);
    InsertedAt(list, e);
    OrderedIsSorted(list, filed);
    hide Inserted, Ordered, Numbered, Others, StampOf;
    if i == k {
      OlderStamp(list, e.task, filed, count, j - 1);
    } else {
      var x := if i < k then i else i - 1;
      OlderStamp(list, e.task, filed, count, x);
      if j == k {
        StampNow(filed, e.task, count);
      } else {
        var y := if j < k then j else j - 1;
        OlderStamp(list, e.task, filed, count, y);
        PairInOrder(list, filed, x, y);
      }
    }
  }

  lemma StampNow(filed: map<ScheduledTask, nat>, task: ScheduledTask, count: nat)
    ensures StampOf(filed[task := count], task) == count
  {
  }

  lemma OrderedIsSorted(list: seq<Entry>, filed: map<ScheduledTask, nat>)
    requires Ordered(list, filed)
    ensures Sorted(list)
  {
  }

  lemma FireFirstKeepsGood(s: State, now: int)
    requires Inv(s) && s.list != [] && s.list[0].due <= now
    ensures var s' := FireFirst(s, now); Good(s'.list, s'.log, s'.filed.Keys)
  {
    var list, log, known, f := s.list, s.log, s.filed.Keys, FiringOf(s.list[0], s.filed, now);
    FiringIsApart(list, log, known, f);
    TailIsAhead(list, log, known, f);
    if list[0].task.interval > 0 {
      RenewedIsAhead(list, log, known, f);
    }
    assert list[0].task in known;
    KeysStay(s.filed, list[0].task, s.count);
    hide Ahead, Apart, Known, Sorted, Distinct, Filed, Ordered, Numbered;
    FiledIsGood(list[0].task, list[1..], log + [f], known, now);
  }

  lemma KeysStay(filed: map<ScheduledTask, nat>, task: ScheduledTask, count: nat)
    requires task in filed
    ensures filed[task := count].Keys == filed.Keys
  {
  }

  lemma FiledIsGood(task: ScheduledTask, rest: seq<Entry>, log: seq<Firing>, known: set<ScheduledTask>, now: int)
    requires Good(rest, log, known) && task in known
    requires forall j | 0 <= j < |rest| :: rest[j].task != task
    requires task.interval > 0 ==>
               forall i | 0 <= i < |log| && log[i].task == task :: Follows(log[i], now + task.interval)
    ensures Good(Filed(task, rest, now), log, known)
  {
    hide Ahead, Apart, Known, Sorted, Distinct, Inserted;
    if task.interval > 0 {
      assert known + {task} == known;
      InsertKeepsGood(rest, Entry(task, now + task.interval), log, known);
    }
  }

  lemma RenewedIsAhead(list: seq<Entry>, log: seq<Firing>, known: set<ScheduledTask>, f: Firing)
    requires Good(list, log, known) && list != [] && f.task == list[0].task && list[0].due <= f.time
    requires f.task.interval > 0
    ensures var l := log + [f];
            forall i | 0 <= i < |l| && l[i].task == f.task :: Follows(l[i], f.time + f.task.interval)
  {
  }

  lemma FireFirstKeepsOrder(s: State, now: int)
    requires Inv(s) && s.list != [] && s.list[0].due <= now
    ensures var s' := FireFirst(s, now); Ordered(s'.list, s'.filed) && Numbered(s'.filed, s'.count)
  {
    TailIsOrdered(s.list, s.filed);
    TailIsOthers(s.list, s.log, s.filed);
    hide Ordered, Good, Numbered, Others, Filed;
    FiledIsOrdered(s.list[0].task, s.list[1..], s.filed, s.count, now);
  }

  lemma FiledIsOrdered(task: ScheduledTask, rest: seq<Entry>, filed: map<ScheduledTask, nat>, count: nat, now: int)
    requires Ordered(rest, filed) && Numbered(filed, count) && Others(rest, task, filed)
    ensures var f := if task.interval > 0 then filed[task := count] else filed;
            Ordered(Filed(task, rest, now), f) && Numbered(f, count + 1)
  {
    hide Ordered, Others, Inserted;
    if task.interval > 0 {
      InsertKeepsOrdered(rest, Entry(task, now + task.interval), filed, count);
    }
  }

  lemma TailIsOthers(list: seq<Entry>, log: seq<Firing>, filed: map<ScheduledTask, nat>)
    requires Good(list, log, filed.Keys) && list != []
    ensures Others(list[1..], list[0].task, filed)
  {
    hide Sorted, Apart, Ahead;
  }

  lemma TailIsOrdered(list: seq<Entry>, filed: map<ScheduledTask, nat>)
    requires list != [] && Ordered(list, filed)
    ensures Ordered(list[1..], filed)
  {
  }

  lemma FireFirstKeepsInv(s: State, now: int)
    requires Inv(s) && s.list != [] && s.list[0].due <= now
    ensures Inv(FireFirst(s, now))
  {
    FireFirstKeepsGood(s, now);
    FireFirstKeepsOrder(s, now);
    hide Good, Ordered, Numbered, FireFirst;
  }

  // ---------- one alarm ----------

  function Firings(es: seq<Entry>, filed: map<ScheduledTask, nat>, now: int): (fs: seq<Firing>)
    ensures |fs| == |es| && forall i | 0 <= i < |es| :: fs[i] == FiringOf(es[i], filed, now)
  {
    seq(|es|, i requires 0 <= i < |es| => FiringOf(es[i], filed, now))
  }

  /** Filing the first task anew does not touch the numbers of the others. */
  lemma OthersKeepStamps(s: State, now: int, i: nat)
    requires Distinct(s.list) && 0 < i < |s.list|
    ensures StampOf(FireFirst(s, now).filed, s.list[i].task) == StampOf(s.filed, s.list[i].task)
  {
    hide Refiled;
  }

  lemma FiringsAgree(es: seq<Entry>, filed: map<ScheduledTask, nat>, filed': map<ScheduledTask, nat>, now: int)
    requires forall i | 0 <= i < |es| :: StampOf(filed', es[i].task) == StampOf(filed, es[i].task)
    ensures Firings(es, filed', now) == Firings(es, filed, now)
  {
    hide StampOf;
  }

  lemma FiringsOfFirst(e: Entry, es: seq<Entry>, filed: map<ScheduledTask, nat>, now: int)
    ensures Firings([e] + es, filed, now) == [FiringOf(e, filed, now)] + Firings(es, filed, now)
  {
    hide StampOf;
  }

  /** The due entries behind the first keep their numbers when it has fired. */
  lemma DueKeepStamps(s: State, now: int, i: nat)
    requires Distinct(s.list) && s.list != [] && i < |DuePart(s.list[1..], now)|
    ensures var e := DuePart(s.list[1..], now)[i];
            StampOf(FireFirst(s, now).filed, e.task) == StampOf(s.filed, e.task)
  {
    DueThenLater(s.list[1..], now);
    assert DuePart(s.list[1..], now)[i] == s.list[1..][i] == s.list[i + 1];
    hide DuePart, FireFirst, StampOf, Distinct;
    OthersKeepStamps(s, now, i + 1);
  }

  /** The firings that are left when the first entry has fired are those that were behind it. */
  lemma FiringsBehind(s: State, now: int)
    requires Inv(s) && s.list != [] && s.list[0].due <= now
    ensures var s' := FireFirst(s, now);
            Firings(DuePart(s.list, now), s.filed, now) ==
            [FiringOf(s.list[0], s.filed, now)] + Firings(DuePart(s'.list, now), s'.filed, now)
  {
    var s', due := FireFirst(s, now), DuePart(s.list[1..], now);
    RefiledList(s.list, now);
    DuePartStep(s.list, now);
    assert DuePart(s'.list, now) == due && Distinct(s.list);
    hide Inv, Distinct, DuePart, FireFirst, StampOf, FiringOf;
    forall i: nat | i < |due|
      ensures StampOf(s'.filed, due[i].task) == StampOf(s.filed, due[i].task)
    {
      DueKeepStamps(s, now, i);
    }
    FiringsAgree(due, s.filed, s'.filed, now);
    FiringsOfFirst(s.list[0], due, s.filed, now);
  }

  /** One alarm keeps the invariant and logs exactly the due entries, in list order. */
  lemma {:induction false} AlarmLogsTheDue(s: State, now: int)
    requires Inv(s)
    ensures Inv(FireAll(s, now))
    ensures FireAll(s, now).log == s.log + Firings(DuePart(s.list, now), s.filed, now)
    decreases DueCount(s.list, now)
  {
    hide Inv;
    if s.list == [] || s.list[0].due > now {
      assert s.log + [] == s.log;
    } else {
      RefiledIsLessDue(s.list, now);
      FireFirstKeepsInv(s, now);
      FiringsBehind(s, now);
      AlarmLogsTheDue(FireFirst(s, now), now);
      hide Firings, DuePart, Refiled;
      Regroup(s.log, [FiringOf(s.list[0], s.filed, now)],
              Firings(DuePart(FireFirst(s, now).list, now), FireFirst(s, now).filed, now));
    }
  }

  lemma {:induction false} AlarmKeepsKnown(s: State, now: int)
    requires Inv(s)
    ensures FireAll(s, now).filed.Keys == s.filed.Keys
    decreases DueCount(s.list, now)
  {
    if s.list != [] && s.list[0].due <= now {
      RefiledIsLessDue(s.list, now);
      FireFirstKeepsInv(s, now);
      assert s.list[0].task in s.filed;
      KeysStay(s.filed, s.list[0].task, s.count);
      hide Inv, Refiled;
      AlarmKeepsKnown(FireFirst(s, now), now);
    }
  }

  lemma Regroup(a: seq<Firing>, b: seq<Firing>, c: seq<Firing>)
    ensures a + b + c == a + (b + c)
  {
  }

  // ---------- every run ----------

  lemma AddKeepsInv(s: State, task: ScheduledTask, due: int)
    requires Inv(s)
    ensures Inv(Step(s, Add(task, due)))
  {
    if task !in s.filed {
      InsertKeepsGood(s.list, Entry(task, due), s.log, s.filed.Keys);
      InsertKeepsOrdered(s.list, Entry(task, due), s.filed, s.count);
      assert s.filed[task := s.count].Keys == s.filed.Keys + {task};
      hide Good, Ordered, Inserted;
    }
  }

  lemma {:induction false} RunIsGood(events: seq<Event>)
    ensures Inv(Run(events))
  {
    hide Inv;
    if events == [] {
      NothingYet();
    } else {
      var before, e := Run(events[..|events| - 1]), events[|events| - 1];
      RunIsGood(events[..|events| - 1]);
      match e
      case Add(task, due) => AddKeepsInv(before, task, due);
      case Alarm(now) => AlarmLogsTheDue(before, now);
    }
  }

  lemma NothingYet()
    ensures Inv(Run([]))
  {
  }

  /** Over every run two firings of one periodic task are at least its interval apart, and a task
      that runs once fires at most once. */
  lemma FiringsAreSpaced(events: seq<Event>, i: nat, j: nat)
    requires i < j < |Run(events).log|
    ensures var log := Run(events).log;
            log[i].task == log[j].task ==>
              log[i].task.interval > 0 && log[j].time - log[i].time >= log[i].task.interval
  {
    RunIsGood(events);
  }

  /** In every alarm of every run exactly the due tasks fire, once each, by deadline and, among equal
      deadlines, in the order in which they were filed. */
  lemma FiresInFilingOrder(events: seq<Event>, now: int)
    ensures var before, after := Run(events), Run(events + [Alarm(now)]);
            var due := DuePart(before.list, now);
            && after.log == before.log + Firings(due, before.filed, now)
            && (forall e <- before.list :: e.due <= now <==> e in due)
            && (forall i, j | 0 <= i < j < |due| :: due[i].task != due[j].task)
    ensures var before, after := Run(events), Run(events + [Alarm(now)]);
            forall i, j | |before.log| <= i < j < |after.log| ::
              Before(after.log[i].due, after.log[i].stamp, after.log[j].due, after.log[j].stamp)
  {
    var before := Run(events);
    assert (events + [Alarm(now)])[..|events|] == events;
    RunIsGood(events);
    AlarmLogsTheDue(before, now);
    DuePartIsDue(before.list, now);
    DueThenLater(before.list, now);
    var due := DuePart(before.list, now);
    assert forall i | 0 <= i < |due| :: due[i] == before.list[i];
    hide Run, FireAll, DuePart, Sorted, Apart, Ahead;
  }

  /** The number of a task that is filed is larger than all numbers before, at its first filing and
      at every renewal. */
  lemma FilingTakesLargestNumber(events: seq<Event>, e: Event, task: ScheduledTask)
    ensures var before, after := Run(events), Run(events + [e]);
            task in after.filed && (task !in before.filed || after.filed[task] != before.filed[task]) ==>
              before.count <= after.filed[task] && forall t <- before.filed :: before.filed[t] < after.filed[task]
  {
    assert (events + [e])[..|events|] == events;
    RunIsGood(events);
    if e.Alarm? {
      RenewalsAreLater(Run(events), e.now, task);
    }
  }

  lemma {:induction false} RenewalsAreLater(s: State, now: int, task: ScheduledTask)
    ensures var s' := FireAll(s, now);
            && s'.count >= s.count
            && (task in s'.filed && (task !in s.filed || s'.filed[task] != s.filed[task]) ==> s'.filed[task] >= s.count)
    decreases DueCount(s.list, now)
  {
    if s.list != [] && s.list[0].due <= now {
      RefiledIsLessDue(s.list, now);
      RenewalsAreLater(FireFirst(s, now), now, task);
    }
  }

  /** What an alarm leaves: the later entries as they were, and the due periodic tasks one interval from
      now. */
  lemma AlarmLeaves(events: seq<Event>, now: int, x: Entry)
    ensures var before, after := Run(events).list, Run(events + [Alarm(now)]).list;
            x in after <==>
              || (x in before && x.due > now)
              || (exists e <- before :: e.due <= now && e.task.interval > 0 && x == Entry(e.task, now + e.task.interval))
  {
    RunIsGood(events);
    assert (events + [Alarm(now)])[..|events|] == events;
    FireAllHarvests(Run(events), now);
    hide Run, Harvested;
    HandlerLeaves(Run(events).list, now, x);
    assert forall e :: ComesBackAs(e, now, x) <==> e.task.interval > 0 && x == Entry(e.task, now + e.task.interval);
  }

  /** After every alarm the list is sorted and has nothing due, whatever came before. */
  lemma NothingLeftDue(events: seq<Event>, now: int)
    ensures var list := Run(events + [Alarm(now)]).list; Sorted(list) && forall e <- list :: e.due > now
  {
    RunIsGood(events);
    assert (events + [Alarm(now)])[..|events|] == events;
    FireAllHarvests(Run(events), now);
    HandlerLeavesNothingDue(Run(events).list, now);
  }
}
