/** The task manager: a pending queue, the running tasks and the finished
    tasks in completion order, moved between under a concurrency limit and
    a per-task timeout. What a task reports about itself (whether it is
    still running, how long it has run, whether it writes files) is given
    to each operation as a function of the task. */
module Scheduler {
  import opened Tasks
  import opened Filtering
  import Reactor

  datatype Option<T> = None | Some(value: T)

  /** How many pending tasks `start_tasks` admits: tasks leave the queue
      until it is empty or `active` reaches `limit`. */
  function AdmitCount(pending: nat, active: nat, limit: int): (n: nat)
    ensures n <= pending
    ensures active >= limit ==> n == 0
    ensures active < limit ==> active + n <= limit
    ensures n == pending || active + n >= limit
  {
    if limit <= active then 0
    else if pending <= limit - active then pending
    else limit - active
  }

  /** The only count `start_tasks` can stop at. */
  lemma AdmitCountIs(pending: nat, active: nat, limit: int, k: nat)
    requires k <= pending
    requires k == 0 || active + k <= limit
    requires k == pending || active + k >= limit
    ensures k == AdmitCount(pending, active, limit)
  {
  }

  lemma AdmitStep(pending0: seq<TaskId>, moved: seq<TaskId>, rest: seq<TaskId>,
                  trace0: seq<Event>, trace: seq<Event>, withWriter: bool)
    requires pending0 == moved + rest && rest != []
    requires trace == trace0 + StartEvents(moved, withWriter)
    ensures pending0 == (moved + [rest[0]]) + rest[1..]
    ensures trace + [Start(rest[0], withWriter)] == trace0 + StartEvents(moved + [rest[0]], withWriter)
  {
    StartEventsSnoc(moved, rest[0], withWriter);
    assert rest == [rest[0]] + rest[1..];
  }

  lemma SplitAt<T>(s: seq<T>, a: seq<T>, b: seq<T>)
    requires s == a + b
    ensures a == s[..|a|] && b == s[|a|..]
  {
  }

  /** The wait handed to `poll` in `run`: an unknown wait or one under a
      second becomes one second, so the loop wakes at least once a second. */
  function ClampWait(wait: Option<int>): (w: int)
    ensures w >= 1
    ensures wait.Some? && wait.value >= 1 ==> w == wait.value
    ensures w == 1 <==> wait.None? || wait.value <= 1
  {
    if wait.None? || wait.value < 1 then 1 else wait.value
  }

  /** Seconds left before task `t` reaches the timeout. */
  function TimeLeft(timeout: int, elapsed: TaskId -> int, t: TaskId): int
  {
    timeout - elapsed(t)
  }

  /** Holds of the tasks that have used up their time. */
  function Expired(timeout: int, elapsed: TaskId -> int): TaskId -> bool
  {
    t => TimeLeft(timeout, elapsed, t) <= 0
  }

  /** `min_timeleft` after the loop of `check_timeout` has seen `ts`. */
  function MinTimeLeft(ts: seq<TaskId>, elapsed: TaskId -> int, timeout: int): (m: Option<int>)
    ensures m.Some? ==> m.value > 0
    decreases |ts|
  {
    if ts == [] then None
    else
      var m := MinTimeLeft(ts[..|ts| - 1], elapsed, timeout);
      var left := TimeLeft(timeout, elapsed, ts[|ts| - 1]);
      if left <= 0 then m
      else if m.None? || left < m.value then Some(left)
      else m
  }

  lemma MinTimeLeftStep(ts: seq<TaskId>, i: nat, elapsed: TaskId -> int, timeout: int)
    requires i < |ts|
    ensures var m := MinTimeLeft(ts[..i], elapsed, timeout);
            var left := TimeLeft(timeout, elapsed, ts[i]);
            MinTimeLeft(ts[..i + 1], elapsed, timeout)
              == if left <= 0 then m else if m.None? || left < m.value then Some(left) else m
  {
    assert ts[..i + 1][..i] == ts[..i];
  }

  /** One step of the loop of `check_tasks`: task s[i] either stays or
      finishes, reporting after the tasks that finished before it. */
  lemma ReapStep(s: seq<TaskId>, i: nat, p: TaskId -> bool, first: nat)
    requires i < |s|
    ensures Kept(s[..i + 1], p) == Kept(s[..i], p) + (if p(s[i]) then [s[i]] else [])
    ensures Dropped(s[..i + 1], p) == Dropped(s[..i], p) + (if p(s[i]) then [] else [s[i]])
    ensures ReportEvents(Dropped(s[..i + 1], p), first)
         == ReportEvents(Dropped(s[..i], p), first)
            + (if p(s[i]) then [] else [Report(s[i], first + |Dropped(s[..i], p)|)])
  {
    KeptStep(s, i, p);
    ReportEventsSnoc(Dropped(s[..i], p), s[i], first);
  }

  /** MinTimeLeft is the least positive time left among `ts`, and None when
      no task of `ts` has time left. */
  lemma {:induction false} MinTimeLeftIsLeast(ts: seq<TaskId>, elapsed: TaskId -> int, timeout: int)
    ensures MinTimeLeft(ts, elapsed, timeout).None?
        <==> forall i :: 0 <= i < |ts| ==> TimeLeft(timeout, elapsed, ts[i]) <= 0
    ensures MinTimeLeft(ts, elapsed, timeout).Some? ==>
              var m := MinTimeLeft(ts, elapsed, timeout).value;
              m > 0 &&
              (exists i :: 0 <= i < |ts| && m == TimeLeft(timeout, elapsed, ts[i])) &&
              (forall i :: 0 <= i < |ts| && TimeLeft(timeout, elapsed, ts[i]) > 0 ==>
                 m <= TimeLeft(timeout, elapsed, ts[i]))
    decreases |ts|
  {
    if ts != [] {
      var init := ts[..|ts| - 1];
      MinTimeLeftIsLeast(init, elapsed, timeout);
      assert forall i :: 0 <= i < |init| ==> init[i] == ts[i];
      var m := MinTimeLeft(init, elapsed, timeout);
      if m.Some? {
        var j :| 0 <= j < |init| && m.value == TimeLeft(timeout, elapsed, init[j]);
        assert m.value == TimeLeft(timeout, elapsed, ts[j]);
      }
    }
  }

  /** Python 2's `max(0, m)`, where None orders below every integer. */
  function MaxWithZero(m: Option<int>): (r: int)
    ensures r >= 0
    ensures m.Some? && m.value >= 0 ==> r == m.value
    ensures m.None? ==> r == 0
  {
    if m.None? || m.value < 0 then 0 else m.value
  }

  /** What `check_timeout` returns when a timeout is set: the least positive
      time left among `ts`, or 0 when no task of `ts` has any left. */
  function TimeoutBudget(ts: seq<TaskId>, elapsed: TaskId -> int, timeout: int): (b: int)
    ensures b >= 0
    ensures b == 0 <==> forall i :: 0 <= i < |ts| ==> TimeLeft(timeout, elapsed, ts[i]) <= 0
    ensures b > 0 ==> exists i :: 0 <= i < |ts| && b == TimeLeft(timeout, elapsed, ts[i])
    ensures forall i :: 0 <= i < |ts| && TimeLeft(timeout, elapsed, ts[i]) > 0 ==>
              b <= TimeLeft(timeout, elapsed, ts[i])
  {
    MinTimeLeftIsLeast(ts, elapsed, timeout);
    MaxWithZero(MinTimeLeft(ts, elapsed, timeout))
  }

  class Manager {
    /** Most tasks running at once. */
    const limit: int
    /** Seconds a task may run; 0 or less means no timeout. */
    const timeout: int
    const iomap: Reactor.IOMap

    /** Pending tasks, in the order they were added. */
    var tasks: seq<TaskId>
    var running: seq<TaskId>
    /** Finished tasks, in completion order. */
    var done: seq<TaskId>
    /** Every call made on a task so far. */
    ghost var trace: seq<Event>

    /** Never more than `limit` tasks run (a limit below 1 lets none run). */
    ghost predicate WithinLimit()
      reads this
    {
      |running| <= limit || running == []
    }

    /** The reports made so far are, in order, done[0] with ordinal 1,
        done[1] with ordinal 2, and so on: every finished task reported once,
        with consecutive ordinals starting at 1. */
    ghost predicate ReportsNumbered()
      reads this
    {
      Ordinals(trace) == Numbered(done, 1)
    }

    ghost predicate Valid()
      reads this
    {
      WithinLimit() && ReportsNumbered()
    }

    constructor (limit: int, timeout: int)
      ensures this.limit == limit && this.timeout == timeout
      ensures tasks == [] && running == [] && done == [] && trace == []
      ensures fresh(iomap) && iomap.handlers == map[] && iomap.poller == map[]
      ensures Valid()
    {
      this.limit := limit;
      this.timeout := timeout;
      iomap := new Reactor.IOMap();
      tasks, running, done := [], [], [];
      trace := [];
    }

    /** `add_task`: queue `task` behind the tasks already pending. */
    method AddTask(task: TaskId)
      requires Valid()
      modifies this`tasks
      ensures Valid()
      ensures tasks == old(tasks) + [task]
    {
      tasks := tasks + [task];
    }

    /** Whether `run` creates a Writer: some pending task writes its output
        or its errors to files. */
    method WriterNeeded(hasOutput: TaskId -> bool) returns (needed: bool)
      ensures needed <==> exists i :: 0 <= i < |tasks| && hasOutput(tasks[i])
    {
      var i := 0;
      while i < |tasks|
        invariant 0 <= i <= |tasks|
        invariant forall j :: 0 <= j < i ==> !hasOutput(tasks[j])
      {
        if hasOutput(tasks[i]) {
          return true;
        }
        i := i + 1;
      }
      needed := false;
    }

    /** `start_tasks`: move tasks from the front of the queue to the end of
        `running`, starting each one, while a slot is free. */
    method StartTasks(withWriter: bool)
      requires Valid()
      modifies this`tasks, this`running, this`trace
      ensures Valid()
      ensures var n := AdmitCount(|old(tasks)|, |old(running)|, limit);
              running == old(running) + old(tasks)[..n] &&
              tasks == old(tasks)[n..] &&
              trace == old(trace) + StartEvents(old(tasks)[..n], withWriter)
      ensures running + tasks == old(running) + old(tasks)
    {
      ghost var trace0, pending0 := trace, tasks;
      Admit(withWriter);
      ghost var started := pending0[..AdmitCount(|pending0|, |old(running)|, limit)];
      StartEventsReportNothing(started, withWriter);
      NumberingExtends(trace0, done, StartEvents(started, withWriter), []);
      assert done + [] == done;
    }

    /** The loop of `start_tasks`. */
    method Admit(withWriter: bool)
      requires WithinLimit()
      modifies this`tasks, this`running, this`trace
      ensures WithinLimit()
      ensures var n := AdmitCount(|old(tasks)|, |old(running)|, limit);
              running == old(running) + old(tasks)[..n] &&
              tasks == old(tasks)[n..] &&
              trace == old(trace) + StartEvents(old(tasks)[..n], withWriter)
    {
      ghost var pending0, running0, trace0 := tasks, running, trace;
      ghost var moved := [];
      while 0 < |tasks| && |running| < limit
        invariant pending0 == moved + tasks
        invariant running == running0 + moved
        invariant moved == [] || |running| <= limit
        invariant trace == trace0 + StartEvents(moved, withWriter)
        decreases |tasks|
      {
        var task := tasks[0];
        AdmitStep(pending0, moved, tasks, trace0, trace, withWriter);
        moved := moved + [task];
        tasks := tasks[1..];
        running := running + [task];
        trace := trace + [Start(task, withWriter)];
      }
      SplitAt(pending0, moved, tasks);
      AdmitCountIs(|pending0|, |running0|, limit, |moved|);
    }

    /** `finished`: append `task` to `done` and have it report with its
        ordinal, the new length of `done`, which is its position in `done`
        counted from 1. */
    method Finished(task: TaskId)
      modifies this`done, this`trace
      ensures done == old(done) + [task]
      ensures trace == old(trace) + [Report(task, |done|)]
      ensures old(ReportsNumbered()) ==> ReportsNumbered()
    {
      if ReportsNumbered() {
        OrdinalsSnoc(trace, Report(task, |done| + 1));
        NumberedSnoc(done, task, 1);
      }
      done := done + [task];
      var n := |done|;
      trace := trace + [Report(task, n)];
    }

    /** `check_tasks`: keep the tasks that still run, in their order, and
        finish the others in the order they are met. */
    method CheckTasks(isRunning: TaskId -> bool)
      requires Valid()
      modifies this`running, this`done, this`trace
      ensures Valid()
      ensures running == Kept(old(running), isRunning)
      ensures done == old(done) + Dropped(old(running), isRunning)
      ensures trace == old(trace) + ReportEvents(Dropped(old(running), isRunning), |old(done)| + 1)
    {
      ghost var done0, trace0, finished := done, trace, Dropped(running, isRunning);
      Reap(isRunning);
      ReportEventsNumber(finished, |done0| + 1);
      NumberingExtends(trace0, done0, ReportEvents(finished, |done0| + 1), finished);
    }

    /** The loop of `check_tasks`. */
    method Reap(isRunning: TaskId -> bool)
      modifies this`running, this`done, this`trace
      ensures running == Kept(old(running), isRunning)
      ensures done == old(done) + Dropped(old(running), isRunning)
      ensures trace == old(trace) + ReportEvents(Dropped(old(running), isRunning), |old(done)| + 1)
    {
      ghost var done0, trace0 := done, trace;
      var stillRunning := [];
      var i := 0;
      while i < |running|
        invariant 0 <= i <= |running|
        invariant stillRunning == Kept(running[..i], isRunning)
        invariant done == done0 + Dropped(running[..i], isRunning)
        invariant trace == trace0 + ReportEvents(Dropped(running[..i], isRunning), |done0| + 1)
        modifies this`done, this`trace
      {
        var task := running[i];
        ReapStep(running, i, isRunning, |done0| + 1);
        if isRunning(task) {
          stillRunning := stillRunning + [task];
        } else {
          Finished(task);
        }
        i := i + 1;
      }
      assert running[..i] == running;
      running := stillRunning;
    }

    /** `check_timeout`: with a timeout set, ask every running task that has
        used up its time to stop, and return the least time any other task
        has left (0 if none has any). Tasks stay in `running` until
        `check_tasks` sees them stopped. */
    method CheckTimeout(elapsed: TaskId -> int) returns (r: Option<int>)
      requires Valid()
      modifies this`trace
      ensures Valid()
      ensures timeout <= 0 ==> r == None && trace == old(trace)
      ensures timeout > 0 ==> r == Some(TimeoutBudget(running, elapsed, timeout))
      ensures timeout > 0 ==>
                trace == old(trace) + TimedOutEvents(Kept(running, Expired(timeout, elapsed)))
    {
      if timeout <= 0 {
        return None;
      }
      ghost var trace0 := trace;
      var least := SignalExpired(elapsed);
      r := Some(MaxWithZero(least));
      ghost var expired := Kept(running, Expired(timeout, elapsed));
      TimedOutEventsReportNothing(expired);
      NumberingExtends(trace0, done, TimedOutEvents(expired), []);
      assert done + [] == done;
    }

    /** The loop of `check_timeout`: signal the expired tasks and find the
        least positive time left. */
    method SignalExpired(elapsed: TaskId -> int) returns (least: Option<int>)
      modifies this`trace
      ensures least == MinTimeLeft(running, elapsed, timeout)
      ensures trace == old(trace) + TimedOutEvents(Kept(running, Expired(timeout, elapsed)))
    {
      ghost var trace0 := trace;
      ghost var expired := Expired(timeout, elapsed);
      least := None;
      var i := 0;
      while i < |running|
        invariant 0 <= i <= |running|
        invariant least == MinTimeLeft(running[..i], elapsed, timeout)
        invariant trace == trace0 + TimedOutEvents(Kept(running[..i], expired))
      {
        var task := running[i];
        KeptStep(running, i, expired);
        MinTimeLeftStep(running, i, elapsed, timeout);
        var timeLeft := timeout - elapsed(task);
        assert expired(task) <==> timeLeft <= 0;
        if timeLeft <= 0 {
          TimedOutEventsSnoc(Kept(running[..i], expired), task);
          trace := trace + [TimedOut(task)];
        } else if least.None? || timeLeft < least.value {
          least := Some(timeLeft);
        }
        i := i + 1;
      }
      assert running[..i] == running;
    }

    /** `interrupted`: stop every running task and finish it, then cancel
        every pending task and finish it. Neither list is emptied. */
    method Interrupted()
      requires Valid()
      modifies this`done, this`trace
      ensures Valid()
      ensures done == old(done) + running + tasks
      ensures trace == old(trace)
                       + AbortEvents(running, |old(done)| + 1, true)
                       + AbortEvents(tasks, |old(done)| + |running| + 1, false)
    {
      ghost var done0, trace0 := done, trace;
      Abort(running, true);
      Abort(tasks, false);
      AbortKeepsNumbering(trace0, done0, running, tasks);
    }

    /** One loop of `interrupted`: for each task of `ts` in order, stop it
        (`wasRunning`) or cancel it, then finish it. */
    method Abort(ts: seq<TaskId>, wasRunning: bool)
      modifies this`done, this`trace
      ensures done == old(done) + ts
      ensures trace == old(trace) + AbortEvents(ts, |old(done)| + 1, wasRunning)
    {
      ghost var done0, trace0 := done, trace;
      var i := 0;
      while i < |ts|
        invariant 0 <= i <= |ts|
        invariant done == done0 + ts[..i]
        invariant trace == trace0 + AbortEvents(ts[..i], |done0| + 1, wasRunning)
      {
        var task := ts[i];
        AbortEventsStep(ts, i, |done0| + 1, wasRunning);
        trace := trace + [if wasRunning then Event.Interrupted(task) else Cancel(task)];
        Finished(task);
        i := i + 1;
      }
      assert ts[..i] == ts;
    }

    /** One pass of the loop in `run`, as written: poll with the clamped
        wait, reap finished tasks, then enforce the timeout. Nothing is
        admitted from the queue. */
    method Iterate(wait: Option<int>, isRunning: TaskId -> bool, elapsed: TaskId -> int)
      returns (polled: int, next: Option<int>)
      requires Valid()
      modifies this`running, this`done, this`trace
      ensures Valid()
      ensures polled == ClampWait(wait)
      ensures tasks == old(tasks)
      ensures running == Kept(old(running), isRunning)
      ensures done == old(done) + Dropped(old(running), isRunning)
      ensures next == if timeout <= 0 then None else Some(TimeoutBudget(running, elapsed, timeout))
      ensures trace == old(trace)
                       + ReportEvents(Dropped(old(running), isRunning), |old(done)| + 1)
                       + (if timeout <= 0 then [] else TimedOutEvents(Kept(running, Expired(timeout, elapsed))))
    {
      polled := ClampWait(wait);
      ghost var pending := tasks;
      CheckTasks(isRunning);
      assert tasks == pending;
      next := CheckTimeout(elapsed);
    }

    /** One pass of the loop in `run` that also admits pending tasks once
        finished ones are reaped: afterwards no slot is idle while a task is
        pending. */
    method IterateAdmitting(withWriter: bool, wait: Option<int>, isRunning: TaskId -> bool,
                            elapsed: TaskId -> int)
      returns (polled: int, next: Option<int>)
      requires Valid()
      modifies this`tasks, this`running, this`done, this`trace
      ensures Valid()
      ensures polled == ClampWait(wait)
      ensures tasks == [] || |running| >= limit
      ensures running + tasks == Kept(old(running), isRunning) + old(tasks)
      ensures done == old(done) + Dropped(old(running), isRunning)
      ensures next == if timeout <= 0 then None else Some(TimeoutBudget(running, elapsed, timeout))
      ensures var kept := Kept(old(running), isRunning);
              var n := AdmitCount(|old(tasks)|, |kept|, limit);
              running == kept + old(tasks)[..n] &&
              tasks == old(tasks)[n..] &&
              trace == old(trace)
                       + ReportEvents(Dropped(old(running), isRunning), |old(done)| + 1)
                       + StartEvents(old(tasks)[..n], withWriter)
                       + (if timeout <= 0 then [] else TimedOutEvents(Kept(running, Expired(timeout, elapsed))))
    {
      polled := ClampWait(wait);
      CheckTasks(isRunning);
      StartTasks(withWriter);
      next := CheckTimeout(elapsed);
    }
  }

  /** The state `run` reaches after its first `start_tasks` with limit 1,
      no timeout and tasks a and b added in that order: a runs, b waits. */
  method StartTwo(a: TaskId, b: TaskId) returns (m: Manager)
    ensures fresh(m) && m.Valid()
    ensures m.limit == 1 && m.timeout == 0
    ensures m.running == [a] && m.tasks == [b] && m.done == []
  {
    m := new Manager(1, 0);
    m.AddTask(a);
    m.AddTask(b);
    assert m.tasks == [a, b] && m.running == [] && m.done == [];
    assert AdmitCount(2, 0, 1) == 1;
    m.StartTasks(false);
    assert [a, b][..1] == [a] && [a, b][1..] == [b];
  }

  /** With limit 1 and two tasks that finish at once, the loop of `run` as
      written reaps the first and then never starts the second: the queue
      stays non-empty, nothing runs, and the loop goes on forever. */
  method StallExample(a: TaskId, b: TaskId) returns (pending: seq<TaskId>, active: seq<TaskId>)
    ensures pending == [b] && active == []
  {
    var m := StartTwo(a, b);
    var stopped := (t: TaskId) => false;
    var noTime := (t: TaskId) => 0;
    var polled, wait := m.Iterate(None, stopped, noTime);
    polled, wait := m.Iterate(wait, stopped, noTime);
    pending, active := m.tasks, m.running;
  }

  /** The same run with admission in the loop: both tasks finish, in
      order, after two passes. */
  method DrainExample(a: TaskId, b: TaskId)
    returns (pending: seq<TaskId>, active: seq<TaskId>, finished: seq<TaskId>)
    ensures pending == [] && active == [] && finished == [a, b]
  {
    var m := StartTwo(a, b);
    var stopped := (t: TaskId) => false;
    var noTime := (t: TaskId) => 0;
    assert Kept([a], stopped) == [] && Dropped([a], stopped) == [a] by {
      assert [a][..0] == [];
    }
    var polled, wait := m.IterateAdmitting(false, None, stopped, noTime);
    assert m.running + m.tasks == [b];
    assert m.tasks == [] by {
      assert |m.running| + |m.tasks| == 1;
    }
    assert m.running == [b] by {
      assert m.running + m.tasks == m.running;
    }
    assert Kept([b], stopped) == [] && Dropped([b], stopped) == [b] by {
      assert [b][..0] == [];
    }
    polled, wait := m.IterateAdmitting(false, wait, stopped, noTime);
    pending, active, finished := m.tasks, m.running, m.done;
  }
}
