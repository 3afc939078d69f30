/** The deadline-ordered list of the alarm scheduler, as a value: insertion, one run of the alarm
    handler, and whole runs. */
module AlarmTheory {
  import opened Options

  class ScheduledTask {
    const callback: Option<nat>   // which function to call, if any
    const interval: int           // milliseconds, or 0 for a task that runs once
    var due: int
    var next: ScheduledTask?

    constructor (callback: Option<nat>, interval: int, due: int)
      ensures this.callback == callback && this.interval == interval && this.due == due && next == null
    {
      this.callback, this.interval, this.due, next := callback, interval, due, null;
    }
  }

  datatype Entry = Entry(task: ScheduledTask, due: int)

  ghost predicate Sorted(es: seq<Entry>) {
    forall i, j | 0 <= i < j < |es| :: es[i].due <= es[j].due
  }

  ghost predicate Distinct(es: seq<Entry>) {
    forall i, j | 0 <= i < j < |es| :: es[i].task != es[j].task
  }

  function Tasks(es: seq<Entry>): set<ScheduledTask> {
    if es == [] then {} else {es[0].task} + Tasks(es[1..])
  }

  // ---------- insertion ----------

  /** Where insert_task_ordered puts a task: before the first one due strictly later. */
  function Position(es: seq<Entry>, due: int): (k: nat)
    ensures k <= |es|
    ensures forall i | 0 <= i < k :: es[i].due <= due
    ensures k < |es| ==> due < es[k].due
  {
    if es == [] || due < es[0].due then 0 else 1 + Position(es[1..], due)
  }

  function Inserted(es: seq<Entry>, e: Entry): (r: seq<Entry>)
    ensures |r| == |es| + 1
  {
    var k := Position(es, e.due);
    es[..k] + [e] + es[k..]
  }

  lemma InsertedAt(es: seq<Entry>, e: Entry)
    ensures var k, r := Position(es, e.due), Inserted(es, e);
            && (forall i | 0 <= i < k :: r[i] == es[i])
            && r[k] == e
            && (forall i | k < i < |r| :: r[i] == es[i - 1])
  {
  }

  lemma InsertedStep(es: seq<Entry>, e: Entry)
    ensures Inserted(es, e) ==
            if es == [] || e.due < es[0].due then [e] + es else [es[0]] + Inserted(es[1..], e)
  {
  }

  lemma InsertKeepsSorted(es: seq<Entry>, e: Entry)
    requires Sorted(es)
    ensures Sorted(Inserted(es, e))
  {
    var k, r := Position(es, e.due), Inserted(es, e);
    assert forall i | 0 <= i < k :: r[i] == es[i];
    assert forall i | k < i < |r| :: r[i] == es[i - 1];
  }

  lemma InsertAdds(es: seq<Entry>, e: Entry)
    ensures multiset(Inserted(es, e)) == multiset(es) + multiset{e}
    ensures forall x :: x in Inserted(es, e) <==> x in es || x == e
  {
    var k := Position(es, e.due);
    assert es == es[..k] + es[k..];
  }

  lemma InsertKeepsDistinct(es: seq<Entry>, e: Entry)
    requires Distinct(es) && forall x <- es :: x.task != e.task
    ensures Distinct(Inserted(es, e))
  {
    var k, r := Position(es, e.due), Inserted(es, e);
    assert forall i | 0 <= i < k :: r[i] == es[i] && es[i] in es;
    assert forall i | k < i < |r| :: r[i] == es[i - 1] && es[i - 1] in es;
  }

  // ---------- the alarm handler ----------

  function DueCount(es: seq<Entry>, now: int): nat {
    if es == [] then 0 else (if es[0].due <= now then 1 else 0) + DueCount(es[1..], now)
  }

  lemma {:induction false} DueCountConcat(a: seq<Entry>, b: seq<Entry>, now: int)
    ensures DueCount(a + b, now) == DueCount(a, now) + DueCount(b, now)
  {
    if a == [] {
      assert a + b == b;
    } else {
      assert (a + b)[1..] == a[1..] + b;
      DueCountConcat(a[1..], b, now);
    }
  }

  /** The list `rest` with `task`, which has just fired at `now`, filed anew when it runs again. */
  function Filed(task: ScheduledTask, rest: seq<Entry>, now: int): seq<Entry> {
    if task.interval > 0 then Inserted(rest, Entry(task, now + task.interval)) else rest
  }

  /** What is left of the list when its first entry has fired at `now`. */
  function Refiled(es: seq<Entry>, now: int): seq<Entry>
    requires es != []
  {
    Filed(es[0].task, es[1..], now)
  }

  /** A task that runs again is not due again: the harvest gets shorter. */
  lemma RefiledIsLessDue(es: seq<Entry>, now: int)
    requires es != [] && es[0].due <= now
    ensures DueCount(Refiled(es, now), now) < DueCount(es, now)
  {
    var task, rest := es[0].task, es[1..];
    if task.interval > 0 {
      var e := Entry(task, now + task.interval);
      var k := Position(rest, e.due);
      assert rest == rest[..k] + rest[k..];
      DueCountConcat(rest[..k], rest[k..], now);
      DueCountConcat(rest[..k] + [e], rest[k..], now);
      DueCountConcat(rest[..k], [e], now);
    }
  }

  /** The tasks one run of the handler fires, in order. */
  function Fired(es: seq<Entry>, now: int): seq<ScheduledTask>
    decreases DueCount(es, now)
  {
    if es == [] || es[0].due > now then []
    else
      RefiledIsLessDue(es, now);
      [es[0].task] + Fired(Refiled(es, now), now)
  }

  /** The list it leaves. */
  function Harvested(es: seq<Entry>, now: int): seq<Entry>
    decreases DueCount(es, now)
  {
    if es == [] || es[0].due > now then es
    else
      RefiledIsLessDue(es, now);
      Harvested(Refiled(es, now), now)
  }

  /** The entries that are due at `now`; in a sorted list they come first. */
  function DuePart(es: seq<Entry>, now: int): (d: seq<Entry>)
    ensures |d| <= |es|
  {
    if es == [] || es[0].due > now then [] else [es[0]] + DuePart(es[1..], now)
  }

  /** The others. */
  function LaterPart(es: seq<Entry>, now: int): seq<Entry> {
    if es == [] || es[0].due > now then es else LaterPart(es[1..], now)
  }

  lemma {:induction false} DueThenLater(es: seq<Entry>, now: int)
    ensures DuePart(es, now) + LaterPart(es, now) == es
  {
    if es != [] && es[0].due <= now {
      DueThenLater(es[1..], now);
    }
  }

  function TasksOf(es: seq<Entry>): seq<ScheduledTask> {
    if es == [] then [] else [es[0].task] + TasksOf(es[1..])
  }

  function Renewal(task: ScheduledTask, now: int): seq<Entry> {
    if task.interval > 0 then [Entry(task, now + task.interval)] else []
  }

  /** The entries of those that run again. */
  function Renewed(es: seq<Entry>, now: int): seq<Entry> {
    if es == [] then [] else Renewal(es[0].task, now) + Renewed(es[1..], now)
  }

  lemma DuePartIsDue(es: seq<Entry>, now: int)
    requires Sorted(es)
    ensures forall e <- es :: e.due <= now <==> e in DuePart(es, now)
    ensures forall e <- LaterPart(es, now) :: e.due > now
  {
    if es != [] {
      if es[0].due <= now {
        DuePartIsDue(es[1..], now);
      }
    }
  }

  /** Entries filed for later do not change what is due. */
  lemma {:induction false} DuePartOfInserted(es: seq<Entry>, e: Entry, now: int)
    requires Sorted(es) && e.due > now
    ensures DuePart(Inserted(es, e), now) == DuePart(es, now)
  {
    var r := Inserted(es, e);
    if Position(es, e.due) > 0 {
      assert r[1..] == Inserted(es[1..], e);
      DuePartOfInserted(es[1..], e, now);
    }
  }

  lemma SortedTail(es: seq<Entry>)
    requires es != [] && Sorted(es)
    ensures Sorted(es[1..])
  {
  }

  lemma DuePartStep(es: seq<Entry>, now: int)
    requires es != [] && es[0].due <= now
    ensures DuePart(es, now) == [es[0]] + DuePart(es[1..], now)
  {
  }

  lemma RefiledList(es: seq<Entry>, now: int)
    requires es != [] && Sorted(es) && es[0].due <= now
    ensures Sorted(Refiled(es, now))
    ensures DuePart(Refiled(es, now), now) == DuePart(es[1..], now)
  {
    SortedTail(es);
    hide Sorted, Filed, DuePart;
    FiledList(es[0].task, es[1..], now);
  }

  lemma FiledList(task: ScheduledTask, rest: seq<Entry>, now: int)
    requires Sorted(rest)
    ensures Sorted(Filed(task, rest, now))
    ensures DuePart(Filed(task, rest, now), now) == DuePart(rest, now)
  {
    hide Sorted, Inserted, DuePart;
    if task.interval > 0 {
      InsertKeepsSorted(rest, Entry(task, now + task.interval));
      DuePartOfInserted(rest, Entry(task, now + task.interval), now);
    }
  }

  /** One run of the handler on a sorted list fires exactly the due entries, each once, in list order. */
  lemma {:induction false} HandlerFiresTheDue(es: seq<Entry>, now: int)
    requires Sorted(es)
    ensures Fired(es, now) == TasksOf(DuePart(es, now))
    decreases DueCount(es, now)
  {
    if es != [] && es[0].due <= now {
      RefiledIsLessDue(es, now);
      RefiledList(es, now);
      HandlerFiresTheDue(Refiled(es, now), now);
      DuePartStep(es, now);
      assert DuePart(es, now)[1..] == DuePart(es[1..], now);
    }
  }

  /** What it leaves is sorted and has nothing due. */
  lemma {:induction false} HandlerLeavesNothingDue(es: seq<Entry>, now: int)
    requires Sorted(es)
    ensures Sorted(Harvested(es, now)) && forall e <- Harvested(es, now) :: e.due > now
    decreases DueCount(es, now)
  {
    if es != [] && es[0].due <= now {
      RefiledIsLessDue(es, now);
      RefiledList(es, now);
      HandlerLeavesNothingDue(Refiled(es, now), now);
    }
  }

  /** And it consists of the entries that were not due and of the due ones that run again; the
      tasks that run once are gone. */
  lemma {:induction false} HandlerKeepsTheRest(es: seq<Entry>, now: int)
    requires Sorted(es)
    ensures multiset(Harvested(es, now)) == multiset(LaterPart(es, now)) + multiset(Renewed(DuePart(es, now), now))
    decreases DueCount(es, now)
  {
    if es != [] && es[0].due <= now {
      RefiledIsLessDue(es, now);
      RefiledList(es, now);
      HandlerKeepsTheRest(Refiled(es, now), now);
      LaterPartOfFiled(es[0].task, es[1..], now);
      DuePartStep(es, now);
      RenewedStep(es[0], DuePart(es[1..], now), now);
      hide Filed, Renewed, DuePart, Renewal;
    }
  }

  /** `x` is what comes back of the entry `e` after firing at `now`. */
  predicate ComesBackAs(e: Entry, now: int, x: Entry) {
    e.task.interval > 0 && x == Entry(e.task, now + e.task.interval)
  }

  /** Entry by entry: the later ones stay as they were, and the due ones that run again are filed for
      one interval from now. Nothing else is left. */
  lemma HandlerLeaves(es: seq<Entry>, now: int, x: Entry)
    requires Sorted(es)
    ensures x in Harvested(es, now) <==>
            (x in es && x.due > now) || (exists e <- es :: e.due <= now && ComesBackAs(e, now, x))
  {
    HarvestedMembers(es, now, x);
    DuePartIsDue(es, now);
    DueThenLater(es, now);
    RenewedMembers(DuePart(es, now), now, x);
    hide Harvested, DuePart, LaterPart, Renewed, Sorted, ComesBackAs;
    SplitMembers(es, DuePart(es, now), LaterPart(es, now));
  }

  lemma SplitMembers(es: seq<Entry>, due: seq<Entry>, later: seq<Entry>)
    requires es == due + later
    ensures forall e :: e in es <==> e in due || e in later
  {
  }

  lemma HarvestedMembers(es: seq<Entry>, now: int, x: Entry)
    requires Sorted(es)
    ensures x in Harvested(es, now) <==> x in LaterPart(es, now) || x in Renewed(DuePart(es, now), now)
  {
    HandlerKeepsTheRest(es, now);
    hide Harvested, LaterPart, Renewed, DuePart;
    assert multiset(Harvested(es, now))[x]
        == multiset(LaterPart(es, now))[x] + multiset(Renewed(DuePart(es, now), now))[x];
  }

  lemma {:induction false} RenewedMembers(es: seq<Entry>, now: int, x: Entry)
    ensures x in Renewed(es, now) <==>
            exists e <- es :: ComesBackAs(e, now, x)
  {
    if es != [] {
      RenewedMembers(es[1..], now, x);
      assert x in Renewal(es[0].task, now) <==> ComesBackAs(es[0], now, x);
      assert es[0] in es && forall e :: e in es <==> e == es[0] || e in es[1..];
    }
  }

  lemma RenewedStep(e: Entry, d: seq<Entry>, now: int)
    ensures Renewed([e] + d, now) == Renewal(e.task, now) + Renewed(d, now)
  {
    assert ([e] + d)[1..] == d;
  }

  lemma LaterPartOfFiled(task: ScheduledTask, rest: seq<Entry>, now: int)
    ensures multiset(LaterPart(Filed(task, rest, now), now)) ==
            multiset(LaterPart(rest, now)) + multiset(Renewal(task, now))
  {
    hide LaterPart, Inserted;
    if task.interval > 0 {
      LaterPartOfInserted(rest, Entry(task, now + task.interval), now);
    }
  }

  lemma {:induction false} LaterPartOfInserted(es: seq<Entry>, e: Entry, now: int)
    requires e.due > now
    ensures multiset(LaterPart(Inserted(es, e), now)) == multiset(LaterPart(es, now)) + multiset{e}
  {
    InsertAdds(es, e);
    InsertedStep(es, e);
    hide Inserted, Position;
    if es != [] && es[0].due <= now {
      assert ([es[0]] + Inserted(es[1..], e))[1..] == Inserted(es[1..], e);
      LaterPartOfInserted(es[1..], e, now);
    }
  }
}
