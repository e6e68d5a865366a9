# pssh task manager, modelled in Dafny

This project models the scheduling core of pssh's execution engine,
`psshlib/manager.py`. The core has two parts.

- `Manager` keeps three ordered lists of tasks:
  - a pending FIFO queue (`tasks`);
  - the tasks currently running (`running`);
  - the finished tasks in completion order (`done`).

  It moves tasks between them under a concurrency `limit` and a per-task `timeout`.
- `IOMap` is the descriptor registry. It maps each file descriptor to the handler a task installed for it, beside the interest masks registered with the poller.

Tasks are external objects. The manager only stores them, moves them between its lists and calls them, so a task is an opaque `TaskId`. What a task reports about itself is passed to each operation as a function of the task: whether it still runs, how long it has run, and whether it writes files. Every call the manager makes on a task is recorded in a ghost trace of `Event`s: `Start`, `TimedOut`, `Interrupted`, `Cancel` and `Report(n)`. Properties about the order of calls and about the reporting ordinals are stated against that trace.

Files:

- `filtering.dfy` (module `Filtering`): order-preserving filtering of a sequence by a predicate, and the merge relation that ties the kept and dropped parts back to the original. `check_tasks` is specified with it.
- `tasks.dfy` (module `Tasks`): task identities, the trace events, the blocks of events each operation appends, and the lemmas about reporting ordinals.
- `scheduler.dfy` (module `Scheduler`): the `Manager` class, plus the pure pieces of `run`: the wait clamp and the writer decision. It also holds the admission count and the timeout budget that specify `start_tasks` and `check_timeout`.
- `reactor.dfy` (module `Reactor`): the `IOMap` class with `register` and `unregister`, and the interest mask.

The class invariant `Manager.Valid` has two parts:

- `WithinLimit`: never more than `limit` tasks run.
- `ReportsNumbered`: the `Report` calls made so far are, in order, `done[0]` with ordinal 1, `done[1]` with ordinal 2, and so on. So every finished task is reported exactly once, with consecutive ordinals counting from 1.

`AddTask`, `StartTasks`, `CheckTasks`, `CheckTimeout`, `Interrupted`, `Iterate` and `IterateAdmitting` require and preserve `Valid`. `Finished` needs nothing of its caller and keeps `ReportsNumbered` whenever it held before. `WriterNeeded` only reads the queue. Each loop lives in its own helper method, which states the exact new state (`Admit`, `Reap`, `SignalExpired`, `Abort`). The public method then carries the invariant across with `Tasks.NumberingExtends`.

## Model

| member | source | states |
|---|---|---|
| Scheduler.Manager.Valid | psshlib/manager.py:53-100 | The manager's invariant: WithinLimit and ReportsNumbered together. |
| Scheduler.Manager.WithinLimit | psshlib/manager.py:55 | At most `limit` tasks run, as the guard of `start_tasks` ensures (with a limit below 1, none). |
| Scheduler.Manager.ReportsNumbered | psshlib/manager.py:96-100 | The reports made so far are `done[0]` with ordinal 1, `done[1]` with ordinal 2, and so on, in that order. |
| Scheduler.Manager.constructor | psshlib/manager.py:14-21 | A new manager has the given limit and timeout, a fresh empty IOMap, and empty pending, running and done lists. |
| Scheduler.Manager.AddTask | psshlib/manager.py:49-51 | The task is appended to the back of the pending queue. Nothing else changes, and the invariant is kept. |
| Scheduler.Manager.WriterNeeded | psshlib/manager.py:25-31 | A Writer is needed exactly when some pending task writes its output or errors to files. |
| Scheduler.AdmitCount | psshlib/manager.py:55 | The number of tasks admitted never exceeds the pending count. None are admitted once `running` is at the limit. Otherwise admission never passes the limit, and it stops only when the queue is empty or the limit is reached. |
| Scheduler.AdmitCountIs | psshlib/manager.py:55 | Any count that stops where the loop guard of `start_tasks` stops is the admission count. |
| Scheduler.Manager.StartTasks | psshlib/manager.py:53-58 | The first AdmitCount pending tasks move, in order, from the front of the queue to the end of `running`. `running + tasks` is unchanged. One `Start` per moved task is traced, in order. The limit and the report numbering are kept. |
| Scheduler.Manager.Admit | psshlib/manager.py:55-58 | The loop of `start_tasks` moves exactly the first AdmitCount pending tasks and traces their starts. |
| Scheduler.Manager.Finished | psshlib/manager.py:96-100 | Exactly one task is appended to `done`. It reports with ordinal equal to the new length of `done`, and consecutive numbering of all reports is preserved. |
| Scheduler.Manager.CheckTasks | psshlib/manager.py:60-68 | The new `running` is the order-preserving subsequence of the tasks still running. The others are appended to `done` and reported in encounter order, with ordinals continuing from the old length of `done`. The invariant is kept. |
| Scheduler.Manager.Reap | psshlib/manager.py:62-68 | The loop of `check_tasks` builds the kept part and finishes the dropped part, reporting them in encounter order. |
| Scheduler.ReapStep | psshlib/manager.py:63-67 | Examining one more task extends the kept part or the dropped part by that task, and adds its report after the reports of the tasks finished before it. |
| Filtering.Kept | psshlib/manager.py:62-68 | The kept part is no longer than the input, and every element of it satisfies the predicate. |
| Filtering.Dropped | psshlib/manager.py:62-68 | The dropped part is no longer than the input, and no element of it satisfies the predicate. |
| Filtering.KeptStep | psshlib/manager.py:63-67 | Extending a prefix by one element appends that element to exactly one of the kept and dropped parts. |
| Filtering.Partition | psshlib/manager.py:62-68 | The kept and dropped tasks together are a merge of `running` that keeps each part's order. They hold every task of `running` once (as a multiset), and no task is both kept and finished. |
| Filtering.InterleavingIsPartition | psshlib/manager.py:62-68 | Conversely, any order-preserving merge of `running` into a part whose tasks all still run and a part whose tasks all stopped is exactly the kept and dropped pair. |
| Scheduler.ClampWait | psshlib/manager.py:37-38 | The wait passed to `poll` is at least 1. A wait of 1 or more passes through unchanged. The result is 1 exactly when the wait was unset or at most 1. |
| Scheduler.TimeLeft | psshlib/manager.py:77 | A task's time left is the timeout minus its elapsed time. |
| Scheduler.Expired | psshlib/manager.py:78 | A task has expired when its time left is 0 or less. |
| Scheduler.MinTimeLeft | psshlib/manager.py:75-82 | The `min_timeleft` fold over `running`: skips expired tasks, keeps the smaller time left, and is positive whenever set. |
| Scheduler.MinTimeLeftIsLeast | psshlib/manager.py:75-82 | `min_timeleft` after the loop is unset exactly when no running task has positive time left. Otherwise it is positive, it is some task's time left, and it is at most every positive time left. |
| Scheduler.MinTimeLeftStep | psshlib/manager.py:76-82 | Examining one more task updates `min_timeleft` as the loop body does. |
| Scheduler.MaxWithZero | psshlib/manager.py:84 | Python 2's `max(0, m)`: never negative, a non-negative value passes through, and an unset value gives 0. |
| Scheduler.TimeoutBudget | psshlib/manager.py:75-84 | The returned budget is never negative, and it is 0 exactly when no running task has positive time left. Otherwise it is some task's time left and the least positive one. |
| Scheduler.Manager.CheckTimeout | psshlib/manager.py:70-84 | With timeout at most 0, it returns nothing and makes no call. Otherwise it calls `timedout` on exactly the running tasks with no time left, in `running` order, and returns TimeoutBudget. No list changes, and the invariant is kept. |
| Scheduler.Manager.SignalExpired | psshlib/manager.py:75-82 | The loop of `check_timeout` traces `TimedOut` for exactly the expired tasks in order, and ends with `min_timeleft`. |
| Scheduler.Manager.Interrupted | psshlib/manager.py:86-94 | Every running task, in order, gets `Interrupted` then `Report`. Then every pending task, in order, gets `Cancel` then `Report`. `done` grows by `running + tasks`, ordinals continue consecutively, and neither list is changed. |
| Scheduler.Manager.Abort | psshlib/manager.py:88-94 | One loop of `interrupted`: each task in turn gets its notice and is finished. |
| Tasks.AbortEvents | psshlib/manager.py:88-94 | The calls of one `interrupted` loop: per task, in order, its notice and then its report. There are exactly two events per task. |
| Tasks.AbortEventsAt | psshlib/manager.py:88-94 | In the abort trace, task i of a group owns events 2i and 2i+1: its notice, then its report with ordinal first + i. |
| Tasks.AbortEventsStep | psshlib/manager.py:88-94 | Aborting one more task appends its notice and its report. |
| Tasks.AbortEventsNumber | psshlib/manager.py:88-94 | The reports of an abort loop number its tasks consecutively from the given first ordinal. |
| Tasks.AbortKeepsNumbering | psshlib/manager.py:86-100 | After `interrupted`, the reports number `done + running + tasks` from 1, provided those before it numbered `done`. |
| Tasks.ReportEventsNumber | psshlib/manager.py:63-67 | The reports made by `check_tasks` number the finished tasks consecutively from the given first ordinal. |
| Tasks.NumberingExtends | psshlib/manager.py:96-100 | Appending calls that number new tasks from the old length of `done` plus 1 keeps all reports numbered from 1. |
| Tasks.OrdinalsAppend | psshlib/manager.py:100 | The reports of a concatenated trace are those of its first part followed by those of its second. |
| Tasks.StartEventsReportNothing | psshlib/manager.py:58 | Starting tasks makes no report. |
| Tasks.TimedOutEventsReportNothing | psshlib/manager.py:79 | Timing tasks out makes no report. |
| Scheduler.StartTwo | psshlib/manager.py:34 | With limit 1, no timeout and tasks a then b added, the first `start_tasks` of `run` leaves a running and b pending. |
| Scheduler.Manager.Iterate | psshlib/manager.py:36-41 | One pass of the loop in `run` as written. It polls with the clamped wait, reaps stopped tasks and enforces the timeout, and it leaves the pending queue untouched. The trace grows by the reports of the reaped tasks, then (with a timeout set) the `timedout` calls on the surviving tasks that have no time left. |
| Scheduler.StallExample | psshlib/manager.py:33-41 | With limit 1 and two tasks that finish at once, two passes as written leave the second task pending with nothing running. |
| Scheduler.Manager.IterateAdmitting | psshlib/manager.py:36-41 | A pass that admits after reaping leaves no slot idle while a task is pending. `running + tasks` keeps the surviving tasks followed by the queue, in order. The surviving tasks are followed in `running` by the first AdmitCount pending tasks. The trace grows, in order, by the reports of the reaped tasks, one `Start` per admitted task, and (with a timeout set) the `timedout` calls on the running tasks that have no time left. |
| Scheduler.DrainExample | psshlib/manager.py:33-41 | With admission in the loop, the same two tasks both finish, in order, after two passes. |
| Reactor.EventMask | psshlib/manager.py:119-125 | The mask has POLLIN exactly when reading is asked and POLLOUT exactly when writing is asked, and no other bit. It is 0 exactly when neither is asked. |
| Reactor.IOMap.Valid | psshlib/manager.py:112-131 | The registry's invariant: the poller watches only descriptors that have a handler and that it accepted. |
| Reactor.IOMap.Consistent | psshlib/manager.py:112-131 | A descriptor has a handler exactly when the poller watches it. `register` and `unregister` keep this on success. A refused `register` of a descriptor with no handler yet breaks it. |
| Reactor.IOMap.constructor | psshlib/manager.py:108-110 | A new registry has no handlers and no poller entries. |
| Reactor.DescriptorCheck | psshlib/manager.py:126 | The poller's conversion of a descriptor to a C `int`: OverflowError exactly outside the 32-bit `int` range, ValueError exactly for a negative descriptor inside it, Ok otherwise. |
| Reactor.IOMap.Register | psshlib/manager.py:112-126 | The handler is always installed, overwriting any earlier one. With neither read nor write it raises ValueError. Otherwise the outcome is DescriptorCheck: on Ok the poller entry is set (overwriting) and consistency is kept. Any failure leaves the poller unchanged, which breaks consistency for a descriptor seen for the first time. |
| Reactor.IOMap.Unregister | psshlib/manager.py:128-131 | It succeeds exactly when the poller watches the descriptor, removing it from both maps and changing no other entry. Otherwise it raises and changes nothing: OverflowError for a descriptor outside the 32-bit `int` range, ValueError for a negative one inside it, KeyError for an unknown one. |

## Left out

- `IOMap.poll` is not modelled. It is a blocking system call followed by calls into handler closures supplied by tasks. Its only effect on the model, the wait it is given, is `ClampWait`.
- The `Writer` thread, its queue, and its creation, start and join are left out. They are thread lifecycle and file I/O. Only the decision whether to create one is modelled (`WriterNeeded`). `start_tasks` and `Start` events record only whether a writer exists.
- The `run` loop as a whole is left out. It depends on wall-clock time and blocking polls, and it does not terminate in general. A single pass is modelled (`Iterate`), and so is the corrected pass (`IterateAdmitting`).
- The `KeyboardInterrupt` that leads to `interrupted` is left out: it is asynchronous control flow. `Interrupted` is modelled directly.
- Task behaviour (`start`, `running`, `elapsed`, `timedout`, `interrupted`, `cancel`, `report`) is external. Queries are function parameters and commands are trace events.
- Elapsed times are whole numbers of seconds. The source uses floats.
- The `iomap` argument passed to `task.start` is not recorded in the trace. It is always the manager's own registry.
- The registration work tasks do through `IOMap` is left out. Tasks are opaque.
- Descriptors are integers. `register` and `unregister` also accept an object with a `fileno` method, which is not modelled. The poller, CPython 2's `select.poll`, lies outside `psshlib/manager.py`. `Reactor.DescriptorCheck` follows its conversion of an integer descriptor: OverflowError outside the 32-bit C `int` range, then ValueError for a negative descriptor.
- Where the code differs from what one might expect, the model follows the code:
  - One might expect each pass of `run` to admit pending tasks. The code admits once, before the loop (see Findings).
  - One might expect `check_timeout` to return None when no task has time left. The code returns 0, because Python 2 orders None below every integer.
  - One might expect a refused `register` to leave the registry unchanged. The code installs the handler before it checks the mask.
  - One might expect re-registering a descriptor to be refused. The code overwrites both entries.
  - One might expect `interrupted` to finish the two groups in no fixed order. The code finishes the running group first, then the pending group.

## Findings

| source | as written | input that shows it | evidently intended | confidence | as-written member | corrected member |
|---|---|---|---|---|---|---|
| psshlib/manager.py:34-41 | `start_tasks` runs once before the loop, and the loop never admits again; the loop runs while `running` or `tasks` is non-empty | limit 1, tasks a and b that both finish at once: after a is reaped, b stays pending with nothing running, and the loop polls forever | admit pending tasks on every pass, so that the queue drains and no slot stays idle while a task waits | not executed | Scheduler.StallExample | Scheduler.Manager.IterateAdmitting |
