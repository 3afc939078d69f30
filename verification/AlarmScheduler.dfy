/** The alarm scheduler on its linked list. The clock is an input and callbacks, which do not touch
    the list, are recorded instead of called. */
module AlarmScheduler {
  import opened Options
  import opened AlarmTheory
  import opened AlarmRuns

  function NextOf(es: seq<Entry>, i: nat): ScheduledTask? {
    if i + 1 < |es| then es[i + 1].task else null
  }

  /** The list from `head` holds exactly these tasks with these deadlines, in this order. */
  ghost predicate Chain(head: ScheduledTask?, es: seq<Entry>)
    reads Tasks(es)
  {
    && head == (if es == [] then null else es[0].task)
    && Distinct(es)
    && forall i | 0 <= i < |es| ::
         es[i].task in Tasks(es) && es[i].task.due == es[i].due && es[i].task.next == NextOf(es, i)
  }

  lemma {:induction false} TaskInTasks(es: seq<Entry>, i: nat)
    requires i < |es|
    ensures es[i].task in Tasks(es)
  {
    if i > 0 {
      TaskInTasks(es[1..], i - 1);
    }
  }

  lemma PositionFound(es: seq<Entry>, due: int, k: nat)
    requires k <= |es| && (forall i | 0 <= i < k :: es[i].due <= due) && (k < |es| ==> due < es[k].due)
    ensures Position(es, due) == k
  {
  }

  lemma {:induction false} TasksInserted(es: seq<Entry>, e: Entry)
    ensures Tasks(Inserted(es, e)) == Tasks(es) + {e.task}
  {
    InsertedStep(es, e);
    if es == [] || e.due < es[0].due {
      assert ([e] + es)[1..] == es;
    } else {
      assert ([es[0]] + Inserted(es[1..], e))[1..] == Inserted(es[1..], e);
      TasksInserted(es[1..], e);
    }
  }

  lemma ChainAt(head: ScheduledTask?, es: seq<Entry>, i: nat)
    requires Chain(head, es) && i < |es|
    ensures es[i].task.due == es[i].due && es[i].task.next == NextOf(es, i)
    ensures i == 0 ==> head == es[i].task
  {
  }

  /** The loop of insert_task_ordered: the last task not due later than `due`. */
  method FindPlace(head: ScheduledTask, due: int, ghost es: seq<Entry>) returns (curr: ScheduledTask, ghost k: nat)
    requires Chain(head, es) && es != [] && es[0].due <= due
    ensures 0 < k <= |es| && k == Position(es, due) && curr == es[k - 1].task
  {
    curr, k := head, 1;
    ChainAt(head, es, 0);
    hide Chain, Tasks;
    while curr.next != null && curr.next.due <= due
      invariant 0 < k <= |es| && curr == es[k - 1].task
      invariant curr.next == NextOf(es, k - 1)
      invariant forall i | 0 <= i < k :: es[i].due <= due
      decreases |es| - k
    {
      ChainAt(head, es, k);
      curr := curr.next;
      k := k + 1;
    }
    if k < |es| {
      ChainAt(head, es, k);
    }
    PositionFound(es, due, k);
  }

  method InsertTaskOrdered(head: ScheduledTask?, task: ScheduledTask, ghost es: seq<Entry>)
    returns (head': ScheduledTask?)
    requires Chain(head, es) && task !in Tasks(es)
    modifies task`next, Tasks(es)
    ensures Chain(head', Inserted(es, Entry(task, old(task.due))))
    ensures task.due == old(task.due)
  {
    if head == null || task.due < head.due {
      LinkFirst(head, task, es);
      return task;
    }
    FirstEntry(head, es);
    hide Chain, Inserted, Position, Distinct;
    var curr, k := FindPlace(head, task.due, es);
    LinkAfter(head, curr, task, es, k);
    return head;
  }

  lemma FirstEntry(head: ScheduledTask, es: seq<Entry>)
    requires Chain(head, es)
    ensures es != [] && es[0].due == head.due
  {
    assert es[0].task == head;
  }

  method LinkFirst(head: ScheduledTask?, task: ScheduledTask, ghost es: seq<Entry>)
    requires Chain(head, es) && task !in Tasks(es)
    requires head == null || task.due < head.due
    modifies task`next
    ensures Chain(task, Inserted(es, Entry(task, task.due)))
  {
    ghost var e := Entry(task, task.due);
    NewTaskIsDistinct(es, e);
    TasksInserted(es, e);
    if es != [] {
      TaskInTasks(es, 0);
    }
    PositionFound(es, task.due, 0);
    task.next := head;
    assert Inserted(es, e) == [e] + es;
    forall i | 0 <= i < |es| + 1
      ensures ([e] + es)[i].task in Tasks([e] + es)
    {
      TaskInTasks([e] + es, i);
    }
  }

  method LinkAfter(ghost head: ScheduledTask, curr: ScheduledTask, task: ScheduledTask, ghost es: seq<Entry>, ghost k: nat)
    requires Chain(head, es) && task !in Tasks(es)
    requires 0 < k <= |es| && k == Position(es, task.due) && curr == es[k - 1].task
    modifies task`next, curr`next
    ensures Chain(head, Inserted(es, Entry(task, task.due)))
  {
    ghost var e := Entry(task, task.due);
    NewTaskIsDistinct(es, e);
    TasksInserted(es, e);
    hide Inserted, Position;
    forall i | 0 <= i < |es|
      ensures es[i].task != task
    {
      TaskInTasks(es, i);
    }
    task.next := curr.next;
    curr.next := task;
    LinkedIn(head, es, e, k);
  }

  lemma NewTaskIsDistinct(es: seq<Entry>, e: Entry)
    requires Distinct(es) && e.task !in Tasks(es)
    ensures Distinct(Inserted(es, e))
  {
    forall x | x in es
      ensures x.task != e.task
    {
      var i :| 0 <= i < |es| && es[i] == x;
      TaskInTasks(es, i);
    }
    InsertKeepsDistinct(es, e);
  }

  lemma LinkedIn(head: ScheduledTask?, es: seq<Entry>, e: Entry, k: nat)
    requires 0 < k <= |es| && k == Position(es, e.due)
    requires head == es[0].task && Distinct(Inserted(es, e)) && Tasks(Inserted(es, e)) == Tasks(es) + {e.task}
    requires forall i | 0 <= i < |es| :: es[i].task.due == es[i].due
    requires forall i | 0 <= i < |es| && i != k - 1 :: es[i].task.next == NextOf(es, i)
    requires es[k - 1].task.next == e.task && e.task.due == e.due
    requires e.task.next == NextOf(es, k - 1)
    ensures Chain(head, Inserted(es, e))
  {
    var r := Inserted(es, e);
    InsertedAt(es, e);
    hide Inserted, Tasks, Distinct;
    forall i | 0 <= i < |r|
      ensures r[i].task in Tasks(r) && r[i].task.due == r[i].due
      ensures r[i].task.next == NextOf(r, i)
    {
      TaskInTasks(r, i);
      if i < k {
        assert r[i] == es[i];
      } else if i > k {
        assert r[i] == es[i - 1];
      }
    }
  }

  /** Give a task that is in no list a new deadline and file it. */
  method Refile(head: ScheduledTask?, task: ScheduledTask, due: int, ghost es: seq<Entry>) returns (head': ScheduledTask?)
    requires Chain(head, es) && task !in Tasks(es)
    modifies task, Tasks(es)
    ensures Chain(head', Inserted(es, Entry(task, due)))
    ensures Tasks(Inserted(es, Entry(task, due))) == Tasks(es) + {task}
  {
    TasksInserted(es, Entry(task, due));
    task.due := due;
    head' := InsertTaskOrdered(head, task, es);
  }

  method FileAgain(task: ScheduledTask, now: int, ghost rest: seq<Entry>) returns (head': ScheduledTask?)
    requires Chain(task.next, rest) && task !in Tasks(rest)
    modifies task, Tasks(rest)
    ensures Chain(head', Filed(task, rest, now)) && Tasks(Filed(task, rest, now)) <= Tasks(rest) + {task}
  {
    hide Chain, Inserted, Tasks;
    head' := task.next;
    if task.interval > 0 {
      head' := Refile(head', task, now + task.interval, rest);
    }
  }

  /** Take the first task off and, when it runs again, file it anew. */
  method Expire(head: ScheduledTask, now: int, ghost es: seq<Entry>) returns (head': ScheduledTask?, callback: Option<nat>)
    requires Chain(head, es) && es != []
    modifies Tasks(es)
    ensures Chain(head', Refiled(es, now)) && Tasks(Refiled(es, now)) <= Tasks(es)
    ensures callback == es[0].task.callback
  {
    BehindFirst(head, es);
    hide Chain, Filed, Tasks;
    callback := head.callback;
    head' := FileAgain(head, now, es[1..]);
  }

  method FileNew(head: ScheduledTask?, callback: Option<nat>, interval: int, due: int, ghost es: seq<Entry>)
    returns (head': ScheduledTask?, ghost task: ScheduledTask)
    requires Chain(head, es)
    modifies Tasks(es)
    ensures fresh(task) && task.callback == callback && task.interval == interval
    ensures Chain(head', Inserted(es, Entry(task, due)))
  {
    TasksAllocated(es);
    var newTask := new ScheduledTask(callback, interval, due);
    task := newTask;
    head' := InsertTaskOrdered(head, newTask, es);
  }

  // ---------- the scheduler ----------

  /** The value handed to setitimer. */
  datatype Itimer = Itimer(seconds: int, microseconds: int)

  /** Milliseconds until the next alarm: overdue work is asked for after one. */
  function Delay(due: int, now: int): (ms: int)
    ensures due > now ==> now + ms == due
    ensures due <= now ==> ms == 1
  {
    if due - now <= 0 then 1 else due - now
  }

  function TimerFor(es: seq<Entry>, now: int, timer: Option<Itimer>): (t: Option<Itimer>)
    ensures es == [] ==> t == timer
    ensures es != [] ==> t.Some? && 0 <= t.value.microseconds < 1000000 &&
                         t.value.seconds * 1000000 + t.value.microseconds == Delay(es[0].due, now) * 1000
  {
    if es == [] then timer
    else Some(Itimer(Delay(es[0].due, now) / 1000, (Delay(es[0].due, now) % 1000) * 1000))
  }

  /** What the timer is set to from `before`: with nothing listed it is left alone, for overdue work it
      runs one millisecond, and otherwise until the first deadline. */
  predicate Rearmed(es: seq<Entry>, now: int, before: Option<Itimer>, after: Option<Itimer>) {
    && (es == [] ==> after == before)
    && (es != [] && es[0].due <= now ==> after == Some(Itimer(0, 1000)))
    && (es != [] && es[0].due > now ==>
          && after.Some? && after.value.seconds >= 0 && 0 <= after.value.microseconds < 1000000
          && now * 1000 + after.value.seconds * 1000000 + after.value.microseconds == es[0].due * 1000)
  }

  /** That says all: only one value will do. */
  lemma RearmedExactly(es: seq<Entry>, now: int, before: Option<Itimer>, after: Option<Itimer>)
    ensures Rearmed(es, now, before, after) <==> after == TimerFor(es, now, before)
  {
    if es != [] && Rearmed(es, now, before, after) {
      var a, b := after.value, TimerFor(es, now, before).value;
      assert (a.seconds - b.seconds) * 1000000 == b.microseconds - a.microseconds;
    }
  }

  /** The callbacks of some tasks; a task may have none. */
  function Callbacks(tasks: seq<ScheduledTask>): seq<nat> {
    if tasks == [] then []
    else (match tasks[0].callback case None => [] case Some(f) => [f]) + Callbacks(tasks[1..])
  }

  /** When every task has one they are called in that order, once each. */
  lemma {:induction false} CallbacksInOrder(tasks: seq<ScheduledTask>)
    requires forall t <- tasks :: t.callback.Some?
    ensures |Callbacks(tasks)| == |tasks|
    ensures forall i | 0 <= i < |tasks| :: Callbacks(tasks)[i] == tasks[i].callback.value
  {
    if tasks != [] {
      assert tasks[0] in tasks;
      CallbacksInOrder(tasks[1..]);
      assert forall i | 0 < i < |tasks| :: tasks[i] == tasks[1..][i - 1];
    }
  }

  /** A task without one is passed over. */
  lemma {:induction false} CallbacksPassOver(before: seq<ScheduledTask>, task: ScheduledTask, after: seq<ScheduledTask>)
    requires task.callback.None?
    ensures Callbacks(before + [task] + after) == Callbacks(before + after)
  {
    if before == [] {
      assert before + [task] + after == [task] + after && before + after == after;
    } else {
      CallbacksPassOver(before[1..], task, after);
      assert (before + [task] + after)[1..] == before[1..] + [task] + after;
      assert (before + after)[1..] == before[1..] + after;
    }
  }

  /** The history grows by one event. */
  lemma OneMore(history: seq<Event>, e: Event)
    ensures Run(history + [e]) == Step(Run(history), e)
  {
    hide Step;
    assert (history + [e])[..|history|] == history;
  }

  lemma AddRecorded(history: seq<Event>, task: ScheduledTask, due: int)
    requires task !in Run(history).filed
    ensures Run(history + [Add(task, due)]).list == Inserted(Run(history).list, Entry(task, due))
  {
    hide Run;
    OneMore(history, Add(task, due));
  }

  lemma AlarmRecorded(history: seq<Event>, now: int)
    ensures Run(history + [Alarm(now)]).list == Harvested(Run(history).list, now)
    ensures Run(history + [Alarm(now)]).log ==
            Run(history).log + Firings(DuePart(Run(history).list, now), Run(history).filed, now)
  {
    hide Run, Inv;
    OneMore(history, Alarm(now));
    FireAllHarvests(Run(history), now);
    RunIsGood(history);
    AlarmLogsTheDue(Run(history), now);
  }

  function TasksAdded(history: seq<Event>): set<ScheduledTask> {
    if history == [] then {}
    else
      TasksAdded(history[..|history| - 1]) +
      match history[|history| - 1]
      case Add(task, _) => {task}
      case Alarm(_) => {}
  }

  lemma {:induction false} OnlyAddedIsKnown(history: seq<Event>)
    ensures Run(history).filed.Keys <= TasksAdded(history)
  {
    if history != [] {
      var before, e := history[..|history| - 1], history[|history| - 1];
      OnlyAddedIsKnown(before);
      RunIsGood(before);
      if e.Alarm? {
        AlarmKeepsKnown(Run(before), e.now);
      }
    }
  }

  /** A task created later is none of those added before. */
  lemma AddedIsAllocated(history: seq<Event>)
    ensures forall t <- TasksAdded(history) :: allocated(t)
  {
  }

  /** The list, and the calls and signals so far, which account for it. */
  class Scheduler {
    var listHead: ScheduledTask?
    var timer: Option<Itimer>
    ghost var list: seq<Entry>
    ghost var history: seq<Event>

    ghost predicate Valid()
      reads this, Tasks(list)
    {
      Chain(listHead, list) && Sorted(list) && list == Run(history).list
    }

    constructor ()
      ensures Valid() && history == [] && timer == None
    {
      listHead, timer, list, history := null, None, [], [];
    }

    method RearmHardwareTimer(now: int)
      requires Chain(listHead, list)
      modifies this`timer
      ensures timer == TimerFor(list, now, old(timer)) && Rearmed(list, now, old(timer), timer)
    {
      RearmedExactly(list, now, timer, TimerFor(list, now, timer));
      if listHead == null {
        return;
      }
      assert list[0].task == listHead;
      var delta := listHead.due - now;
      if delta <= 0 {
        delta := 1;
      }
      timer := Some(Itimer(delta / 1000, (delta % 1000) * 1000));
    }

    /** The loop of the handler. The callbacks called are returned in order. */
    method Harvest(now: int) returns (called: seq<nat>)
      requires Chain(listHead, list)
      modifies this`listHead, this`list, Tasks(list)
      ensures Chain(listHead, list) && list == Harvested(old(list), now)
      ensures called == Callbacks(Fired(old(list), now))
    {
      hide Chain, Harvested, Fired, Callbacks, Refiled;
      called := [];
      while listHead != null && listHead.due <= now
        invariant Chain(listHead, list) && Tasks(list) <= old(Tasks(list))
        invariant Harvested(list, now) == Harvested(old(list), now)
        invariant called + Callbacks(Fired(list, now)) == Callbacks(Fired(old(list), now))
        decreases DueCount(list, now)
      {
        FirstEntry(listHead, list);
        RefiledIsLessDue(list, now);
        HarvestStep(list, called, now);
        var callback: Option<nat>;
        listHead, callback := Expire(listHead, now, list);
        list := Refiled(list, now);
        if callback.Some? {
          called := called + [callback.value];
        }
      }
      HarvestEnd(listHead, list, called, now);
    }

    method FireDue(now: int) returns (called: seq<nat>)
      requires Valid()
      modifies this`listHead, this`list, this`history, Tasks(list)
      ensures Valid() && history == old(history) + [Alarm(now)]
      ensures list == Harvested(old(list), now) && forall e <- list :: e.due > now
      ensures called == Callbacks(TasksOf(DuePart(old(list), now)))
    {
      HandlerFiresTheDue(list, now);
      HandlerLeavesNothingDue(list, now);
      AlarmRecorded(history, now);
      hide Chain, Sorted, Harvested, Fired, Callbacks, Run, DuePart, TasksOf;
      called := Harvest(now);
      history := history + [Alarm(now)];
    }

    /** One delivery of the signal: `now` and `later` are the two readings of the clock. */
    method AlarmHandler(isAlarm: bool, now: int, later: int) returns (called: seq<nat>)
      requires Valid()
      modifies this, Tasks(list)
      ensures Valid()
      ensures !isAlarm ==> called == [] && list == old(list) && history == old(history) && timer == old(timer)
      ensures isAlarm ==>
                && history == old(history) + [Alarm(now)]
                && list == Harvested(old(list), now)
                && called == Callbacks(TasksOf(DuePart(old(list), now)))
                && (forall e <- list :: e.due > now)
                && timer == TimerFor(list, later, old(timer)) && Rearmed(list, later, old(timer), timer)
    {
      if !isAlarm {
        return [];
      }
      called := FireDue(now);
      hide Chain, Harvested, Callbacks, Run, DuePart, TasksOf, Rearmed, TimerFor;
      RearmHardwareTimer(later);
    }

    /** A new task, first due `delay` after `now`. */
    method AddTask(callback: Option<nat>, delay: int, interval: int, now: int, later: int)
      returns (ghost task: ScheduledTask)
      requires Valid()
      modifies this, Tasks(list)
      ensures Valid() && fresh(task) && task.callback == callback && task.interval == interval
      ensures history == old(history) + [Add(task, now + delay)]
      ensures list == Inserted(old(list), Entry(task, now + delay))
      ensures timer == TimerFor(list, later, old(timer)) && Rearmed(list, later, old(timer), timer)
    {
      AddedIsAllocated(history);
      OnlyAddedIsKnown(history);
      hide Chain, Inserted, Tasks, Run, Rearmed, TimerFor;
      listHead, task := FileNew(listHead, callback, interval, now + delay, list);
      InsertKeepsSorted(list, Entry(task, now + delay));
      AddRecorded(history, task, now + delay);
      list := Inserted(list, Entry(task, now + delay));
      history := history + [Add(task, now + delay)];
      TasksAllocated(list);
      RearmHardwareTimer(later);
    }
  }

  lemma TasksAllocated(es: seq<Entry>)
    ensures forall t <- Tasks(es) :: allocated(t)
  {
  }

  lemma {:induction false} FirstIsNotBehind(es: seq<Entry>, rest: seq<Entry>)
    requires es != [] && forall e <- rest :: e.task != es[0].task
    ensures es[0].task !in Tasks(rest)
  {
    if rest != [] {
      FirstIsNotBehind(es, rest[1..]);
    }
  }

  lemma BehindFirst(head: ScheduledTask?, es: seq<Entry>)
    requires Chain(head, es) && es != []
    ensures head == es[0].task && Chain(es[0].task.next, es[1..])
    ensures es[0].task !in Tasks(es[1..]) && Tasks(es) == Tasks(es[1..]) + {es[0].task}
  {
    forall i | 0 <= i < |es[1..]|
      ensures es[1..][i].task in Tasks(es[1..]) && es[1..][i].task.due == es[1..][i].due
      ensures es[1..][i].task.next == NextOf(es[1..], i)
    {
      TaskInTasks(es[1..], i);
      assert es[1..][i] == es[i + 1] && NextOf(es[1..], i) == NextOf(es, i + 1);
    }
    FirstIsNotBehind(es, es[1..]);
  }

  lemma HarvestStep(es: seq<Entry>, called: seq<nat>, now: int)
    requires es != [] && es[0].due <= now
    ensures Harvested(es, now) == Harvested(Refiled(es, now), now)
    ensures called + Callbacks(Fired(es, now)) ==
            called + (match es[0].task.callback case None => [] case Some(f) => [f]) +
            Callbacks(Fired(Refiled(es, now), now))
  {
    hide Refiled;
    assert Fired(es, now)[1..] == Fired(Refiled(es, now), now);
  }

  lemma HarvestEnd(head: ScheduledTask?, es: seq<Entry>, called: seq<nat>, now: int)
    requires Chain(head, es) && (head == null || head.due > now)
    ensures Harvested(es, now) == es && called + Callbacks(Fired(es, now)) == called
  {
    if es != [] {
      assert es[0].task == head;
    }
  }
}
