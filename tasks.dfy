/** Tasks as the manager sees them: opaque objects it stores, moves between
    its lists and calls. What a task does when called is outside the model; the calls
    themselves are recorded as a trace of events. */
module Tasks {

  /** A task object. The manager never looks inside one. */
  type TaskId(==)

  /** One call the manager makes on a task. */
  datatype Event =
    | Start(task: TaskId, withWriter: bool)  // task.start(iomap, writer); withWriter: writer is not None
    | TimedOut(task: TaskId)                 // task.timedout()
    | Interrupted(task: TaskId)              // task.interrupted()
    | Cancel(task: TaskId)                   // task.cancel()
    | Report(task: TaskId, ordinal: nat)     // task.report(n)

  /** One Start per task of `ts`, in order. */
  ghost function StartEvents(ts: seq<TaskId>, withWriter: bool): seq<Event>
  {
    seq(|ts|, i requires 0 <= i < |ts| => Start(ts[i], withWriter))
  }

  /** One TimedOut per task of `ts`, in order. */
  ghost function TimedOutEvents(ts: seq<TaskId>): seq<Event>
  {
    seq(|ts|, i requires 0 <= i < |ts| => TimedOut(ts[i]))
  }

  /** One Report per task of `ts`, in order, with ordinals counting up from `first`. */
  ghost function ReportEvents(ts: seq<TaskId>, first: nat): seq<Event>
  {
    seq(|ts|, i requires 0 <= i < |ts| => Report(ts[i], first + i))
  }

  /** The calls made when a run is aborted: for each task of `ts`, in order,
      Interrupted (a task that was running) or Cancel (a task still pending),
      immediately followed by its Report, ordinals counting up from `first`. */
  ghost function AbortEvents(ts: seq<TaskId>, first: nat, wasRunning: bool): (r: seq<Event>)
    ensures |r| == 2 * |ts|
    decreases |ts|
  {
    if ts == [] then []
    else
      var t := ts[|ts| - 1];
      AbortEvents(ts[..|ts| - 1], first, wasRunning)
        + [if wasRunning then Interrupted(t) else Cancel(t), Report(t, first + |ts| - 1)]
  }

  /** AbortEvents spelled out position by position: task i of `ts` gets
      events 2i and 2i+1, the notice and then the report with ordinal first+i. */
  lemma {:induction false} AbortEventsAt(ts: seq<TaskId>, first: nat, wasRunning: bool, i: nat)
    requires i < |ts|
    ensures |AbortEvents(ts, first, wasRunning)| == 2 * |ts|
    ensures AbortEvents(ts, first, wasRunning)[2 * i]
         == (if wasRunning then Interrupted(ts[i]) else Cancel(ts[i]))
    ensures AbortEvents(ts, first, wasRunning)[2 * i + 1] == Report(ts[i], first + i)
    decreases |ts|
  {
    var init := ts[..|ts| - 1];
    if i < |init| {
      AbortEventsAt(init, first, wasRunning, i);
    } else if init != [] {
      AbortEventsAt(init, first, wasRunning, 0);
    }
  }

  /** The (task, ordinal) pair of every Report in `trace`, in trace order. */
  ghost function Ordinals(trace: seq<Event>): seq<(TaskId, nat)>
    decreases |trace|
  {
    if trace == [] then []
    else
      var e := trace[|trace| - 1];
      Ordinals(trace[..|trace| - 1]) + (if e.Report? then [(e.task, e.ordinal)] else [])
  }

  /** The tasks of `ts` paired with the ordinals first, first + 1, ... */
  ghost function Numbered(ts: seq<TaskId>, first: nat): seq<(TaskId, nat)>
  {
    seq(|ts|, i requires 0 <= i < |ts| => (ts[i], first + i))
  }

  lemma OrdinalsSnoc(trace: seq<Event>, e: Event)
    ensures Ordinals(trace + [e]) == Ordinals(trace) + (if e.Report? then [(e.task, e.ordinal)] else [])
  {
    assert (trace + [e])[..|trace|] == trace;
  }

  lemma {:induction false} OrdinalsAppend(a: seq<Event>, b: seq<Event>)
    ensures Ordinals(a + b) == Ordinals(a) + Ordinals(b)
    decreases |b|
  {
    if b == [] {
      assert a + b == a;
    } else {
      var init, last := b[..|b| - 1], b[|b| - 1];
      var tail := if last.Report? then [(last.task, last.ordinal)] else [];
      assert b == init + [last];
      assert a + b == (a + init) + [last];
      calc {
        Ordinals(a + b);
        { OrdinalsSnoc(a + init, last); }
        Ordinals(a + init) + tail;
        { OrdinalsAppend(a, init); }
        Ordinals(a) + Ordinals(init) + tail;
        { OrdinalsSnoc(init, last); }
        Ordinals(a) + Ordinals(b);
      }
    }
  }

  lemma {:induction false} StartEventsReportNothing(ts: seq<TaskId>, withWriter: bool)
    ensures Ordinals(StartEvents(ts, withWriter)) == []
    decreases |ts|
  {
    if ts != [] {
      var init := ts[..|ts| - 1];
      StartEventsReportNothing(init, withWriter);
      StartEventsSnoc(init, ts[|ts| - 1], withWriter);
      assert ts == init + [ts[|ts| - 1]];
      OrdinalsSnoc(StartEvents(init, withWriter), Start(ts[|ts| - 1], withWriter));
    }
  }

  lemma StartEventsSnoc(ts: seq<TaskId>, t: TaskId, withWriter: bool)
    ensures StartEvents(ts + [t], withWriter) == StartEvents(ts, withWriter) + [Start(t, withWriter)]
  {
  }

  lemma TimedOutEventsSnoc(ts: seq<TaskId>, t: TaskId)
    ensures TimedOutEvents(ts + [t]) == TimedOutEvents(ts) + [TimedOut(t)]
  {
  }

  lemma ReportEventsSnoc(ts: seq<TaskId>, t: TaskId, first: nat)
    ensures ReportEvents(ts + [t], first) == ReportEvents(ts, first) + [Report(t, first + |ts|)]
  {
  }

  lemma AbortEventsSnoc(ts: seq<TaskId>, t: TaskId, first: nat, wasRunning: bool)
    ensures AbortEvents(ts + [t], first, wasRunning)
         == AbortEvents(ts, first, wasRunning)
            + [if wasRunning then Interrupted(t) else Cancel(t), Report(t, first + |ts|)]
  {
    assert (ts + [t])[..|ts|] == ts;
  }

  lemma AbortEventsStep(ts: seq<TaskId>, i: nat, first: nat, wasRunning: bool)
    requires i < |ts|
    ensures AbortEvents(ts[..i + 1], first, wasRunning)
         == AbortEvents(ts[..i], first, wasRunning)
            + [if wasRunning then Interrupted(ts[i]) else Cancel(ts[i]), Report(ts[i], first + i)]
  {
    assert ts[..i + 1][..i] == ts[..i];
  }

  lemma NumberedSnoc(ts: seq<TaskId>, t: TaskId, first: nat)
    ensures Numbered(ts + [t], first) == Numbered(ts, first) + [(t, first + |ts|)]
  {
  }

  lemma NumberedAppend(a: seq<TaskId>, b: seq<TaskId>, first: nat)
    ensures Numbered(a + b, first) == Numbered(a, first) + Numbered(b, first + |a|)
  {
  }

  lemma {:induction false} TimedOutEventsReportNothing(ts: seq<TaskId>)
    ensures Ordinals(TimedOutEvents(ts)) == []
    decreases |ts|
  {
    if ts != [] {
      var init, last := ts[..|ts| - 1], ts[|ts| - 1];
      assert ts == init + [last];
      TimedOutEventsReportNothing(init);
      TimedOutEventsSnoc(init, last);
      OrdinalsSnoc(TimedOutEvents(init), TimedOut(last));
    }
  }

  /** The reports of ReportEvents number `ts` consecutively from `first`. */
  lemma {:induction false} ReportEventsNumber(ts: seq<TaskId>, first: nat)
    ensures Ordinals(ReportEvents(ts, first)) == Numbered(ts, first)
    decreases |ts|
  {
    if ts != [] {
      var init, last := ts[..|ts| - 1], ts[|ts| - 1];
      assert ts == init + [last];
      ReportEventsNumber(init, first);
      ReportEventsSnoc(init, last, first);
      OrdinalsSnoc(ReportEvents(init, first), Report(last, first + |init|));
      NumberedSnoc(init, last, first);
    }
  }

  /** The reports of AbortEvents number `ts` consecutively from `first`. */
  lemma {:induction false} AbortEventsNumber(ts: seq<TaskId>, first: nat, wasRunning: bool)
    ensures Ordinals(AbortEvents(ts, first, wasRunning)) == Numbered(ts, first)
    decreases |ts|
  {
    if ts != [] {
      var init, last := ts[..|ts| - 1], ts[|ts| - 1];
      var notice := if wasRunning then Interrupted(last) else Cancel(last);
      var prefix := AbortEvents(init, first, wasRunning);
      assert ts == init + [last];
      AbortEventsNumber(init, first, wasRunning);
      AbortEventsSnoc(init, last, first, wasRunning);
      assert prefix + [notice, Report(last, first + |init|)]
          == (prefix + [notice]) + [Report(last, first + |init|)];
      OrdinalsSnoc(prefix, notice);
      OrdinalsSnoc(prefix + [notice], Report(last, first + |init|));
      NumberedSnoc(init, last, first);
    }
  }

  /** Appending a block of calls whose reports number `dx` from |d| + 1 to a
      trace whose reports number `d` from 1 gives a trace whose reports number
      d + dx from 1. */
  lemma NumberingExtends(t: seq<Event>, d: seq<TaskId>, x: seq<Event>, dx: seq<TaskId>)
    requires Ordinals(t) == Numbered(d, 1)
    requires Ordinals(x) == Numbered(dx, |d| + 1)
    ensures Ordinals(t + x) == Numbered(d + dx, 1)
  {
    OrdinalsAppend(t, x);
    NumberedAppend(d, dx, 1);
  }

  /** After an abort, the running tasks and then the pending tasks are
      numbered on from the tasks finished before. */
  lemma AbortKeepsNumbering(t: seq<Event>, d: seq<TaskId>, active: seq<TaskId>, pending: seq<TaskId>)
    requires Ordinals(t) == Numbered(d, 1)
    ensures Ordinals(t + AbortEvents(active, |d| + 1, true)
                       + AbortEvents(pending, |d| + |active| + 1, false))
         == Numbered(d + active + pending, 1)
  {
    var first := AbortEvents(active, |d| + 1, true);
    AbortEventsNumber(active, |d| + 1, true);
    NumberingExtends(t, d, first, active);
    AbortEventsNumber(pending, |d| + |active| + 1, false);
    NumberingExtends(t + first, d + active, AbortEvents(pending, |d| + |active| + 1, false), pending);
  }
}
