/** `TimeTrackingServiceImpl` over the in-memory event log: starting a timer stops every
    other running interval first, so at most one interval runs at a time. `clock` stands for
    `Utc::now()`, read once per call. */
module TimeTrackingService {
  import opened Base
  import opened TaskIds
  import opened TimeEntries
  import opened TimeEntryRepository

  /** No two intervals run at once. */
  predicate AtMostOneRunning(log: Log) {
    forall i, j :: 0 <= i < |log.events| && 0 <= j < |log.events| && Running(log.events, i) && Running(log.events, j) ==> i == j
  }

  /** Some interval in `xs` whose task is not `skip` was opened by start `sid`. */
  predicate StopsOne(xs: seq<TimeEntry>, skip: Option<TaskId>, sid: int) {
    exists x :: x in xs && skip != Some(x.taskId) && x.startEventId == sid
  }

  /** Stop `e` closes an interval of `xs` whose task is not `skip`. */
  predicate ClosesListed(e: Event, xs: seq<TimeEntry>, skip: Option<TaskId>) {
    exists x :: x in xs && skip != Some(x.taskId) && e.taskId == x.taskId && e.startEventId == Some(x.startEventId)
  }

  lemma ClosesListedTail(e: Event, xs: seq<TimeEntry>, skip: Option<TaskId>)
    requires |xs| > 0
    requires ClosesListed(e, xs[1..], skip)
    ensures ClosesListed(e, xs, skip)
  {
    var x :| x in xs[1..] && skip != Some(x.taskId) && e.taskId == x.taskId && e.startEventId == Some(x.startEventId);
    assert x in xs;
  }

  /** The `for entry in running_entries` loops: saves a stop, stamped `clock`, for each
      interval of `xs` whose task is not `skip`, in order. Returns the log and the saved
      stops. */
  function StopEach(log: Log, xs: seq<TimeEntry>, skip: Option<TaskId>, clock: int): (r: (Log, seq<Event>))
    ensures r.0.events == log.events + r.1
    ensures r.0.counter == log.counter + |r.1|
    ensures |r.1| <= |xs|
    ensures skip.None? ==> |r.1| == |xs|
    ensures forall k :: 0 <= k < |r.1| ==> r.1[k].IsStop() && r.1[k].at == clock
    ensures forall k :: 0 <= k < |r.1| ==> ClosesListed(r.1[k], xs, skip)
    decreases |xs|
  {
    if |xs| == 0 then (log, [])
    else if skip == Some(xs[0].taskId) then
      var rest := StopEach(log, xs[1..], skip, clock);
      assert forall k :: 0 <= k < |rest.1| ==> ClosesListed(rest.1[k], xs, skip) by {
        forall k | 0 <= k < |rest.1| {
          ClosesListedTail(rest.1[k], xs, skip);
        }
      }
      rest
    else
      var (next, stop) := SaveEvent(log, StopNow(xs[0].taskId, xs[0].startEventId, clock));
      var (last, stops) := StopEach(next, xs[1..], skip, clock);
      assert last.events == log.events + ([stop] + stops);
      assert ClosesListed(stop, xs, skip) by {
        assert xs[0] in xs;
      }
      assert forall k :: 0 <= k < |stops| ==> ClosesListed(stops[k], xs, skip) by {
        forall k | 0 <= k < |stops| {
          ClosesListedTail(stops[k], xs, skip);
        }
      }
      (last, [stop] + stops)
  }

  /** Every interval of `xs` was opened by a start in the log. */
  predicate NamesStarts(log: Log, xs: seq<TimeEntry>) {
    forall x :: x in xs ==> 1 <= x.startEventId <= |log.events| && log.events[x.startEventId - 1].IsStart()
  }

  /** `StopEach` closes exactly the intervals it saves a stop for and opens none. */
  lemma {:induction false} StopEachRunning(log: Log, xs: seq<TimeEntry>, skip: Option<TaskId>, clock: int)
    requires Wf(log)
    requires NamesStarts(log, xs)
    ensures Wf(StopEach(log, xs, skip, clock).0)
    ensures forall i :: 0 <= i < |log.events| ==>
      (Running(StopEach(log, xs, skip, clock).0.events, i) <==> Running(log.events, i) && !StopsOne(xs, skip, i + 1))
    ensures forall i :: Running(StopEach(log, xs, skip, clock).0.events, i) ==> i < |log.events|
    decreases |xs|
  {
    if |xs| > 0 {
      StopsOneCons(xs, skip);
      if skip == Some(xs[0].taskId) {
        assert NamesStarts(log, xs[1..]) by {
          assert forall x :: x in xs[1..] ==> x in xs;
        }
        StopEachRunning(log, xs[1..], skip, clock);
      } else {
        var next := StopHead(log, xs, clock);
        assert StopEach(log, xs, skip, clock).0 == StopEach(next, xs[1..], skip, clock).0;
        StopEachRunning(next, xs[1..], skip, clock);
      }
    }
  }

  /** Whether `xs` stops start `sid`: its head does, or its tail does. */
  lemma StopsOneCons(xs: seq<TimeEntry>, skip: Option<TaskId>)
    requires |xs| > 0
    ensures forall sid :: StopsOne(xs, skip, sid) <==>
      (skip != Some(xs[0].taskId) && xs[0].startEventId == sid) || StopsOne(xs[1..], skip, sid)
  {
    assert forall x :: x in xs <==> x == xs[0] || x in xs[1..] by {
      assert xs == [xs[0]] + xs[1..];
    }
  }

  /** The first step of `StopEach` when the head is not skipped: saves a stop for it, which
      closes exactly the head's interval. */
  lemma StopHead(log: Log, xs: seq<TimeEntry>, clock: int) returns (next: Log)
    requires Wf(log)
    requires NamesStarts(log, xs)
    requires |xs| > 0
    ensures next == SaveEvent(log, StopNow(xs[0].taskId, xs[0].startEventId, clock)).0
    ensures Wf(next) && NamesStarts(next, xs[1..]) && |next.events| == |log.events| + 1
    ensures forall i :: 0 <= i < |log.events| ==>
      (Running(next.events, i) <==> Running(log.events, i) && xs[0].startEventId != i + 1)
    ensures !Running(next.events, |log.events|)
  {
    var stop := StopNow(xs[0].taskId, xs[0].startEventId, clock);
    assert xs[0] in xs;
    next := SaveEvent(log, stop).0;
    SaveEventKeepsWf(log, stop);
    SaveEventRunning(log, stop);
    assert NamesStarts(next, xs[1..]) by {
      forall x | x in xs[1..]
        ensures 1 <= x.startEventId <= |next.events| && next.events[x.startEventId - 1].IsStart()
      {
        assert x in xs;
        assert next.events[x.startEventId - 1] == log.events[x.startEventId - 1];
      }
    }
  }

  /** The intervals `find_running_entries` returns were opened by starts in the log. */
  lemma RunningEntriesNameStarts(log: Log)
    requires Wf(log)
    ensures NamesStarts(log, FindRunningEntries(log))
    ensures forall x :: x in FindRunningEntries(log) ==> Running(log.events, x.startEventId - 1)
  {
  }

  /** Step 1 of `start_timer`: stops the running intervals of every other task. */
  function StopOthers(log: Log, t: TaskId, clock: int): (r: Log)
    ensures |r.events| >= |log.events| && r.events[..|log.events|] == log.events
  {
    StopEach(log, FindRunningEntries(log), Some(t), clock).0
  }

  /** After step 1 exactly the intervals of task `t` that were running still run. */
  lemma StopOthersRunning(log: Log, t: TaskId, clock: int)
    requires Wf(log)
    ensures Wf(StopOthers(log, t, clock))
    ensures forall i :: Running(StopOthers(log, t, clock).events, i) <==>
      Running(log.events, i) && log.events[i].taskId == t
  {
    var xs := FindRunningEntries(log);
    RunningEntriesNameStarts(log);
    StopEachRunning(log, xs, Some(t), clock);
    var r := StopOthers(log, t, clock);
    forall i | 0 <= i < |log.events|
      ensures Running(r.events, i) <==> Running(log.events, i) && log.events[i].taskId == t
    {
      if Running(log.events, i) {
        var y := IntervalOf(log.events, i);
        assert y in xs;
        if StopsOne(xs, Some(t), i + 1) {
          var x :| x in xs && Some(t) != Some(x.taskId) && x.startEventId == i + 1;
          assert Running(log.events, x.startEventId - 1);
        }
      }
    }
  }

  /** `stop_timer`: saves a stop for the task's newest running interval, if it has one. */
  function StopTimer(log: Log, t: TaskId, clock: int): (r: (Log, Option<Event>))
    ensures r.1.None? <==> FindRunningEntryByTask(log, t).None?
    ensures r.1.None? ==> r.0 == log
    ensures r.1.Some? ==> r.1.value.IsStop() && r.1.value.taskId == t && r.1.value.at == clock
    ensures r.1.Some? ==> r.1.value.startEventId == Some(FindRunningEntryByTask(log, t).value.startEventId)
    ensures r.1.Some? ==> r.0.events == log.events + [r.1.value]
  {
    match FindRunningEntryByTask(log, t)
    case None => (log, None)
    case Some(x) =>
      var (next, saved) := SaveEvent(log, StopNow(t, x.startEventId, clock));
      (next, Some(saved))
  }

  /** `stop_timer` starts nothing, leaves other tasks running, and stops the task's newest
      running interval; with at most one running interval the task is then stopped. */
  lemma StopTimerEffect(log: Log, t: TaskId, clock: int)
    requires Wf(log)
    ensures Wf(StopTimer(log, t, clock).0)
    ensures forall i :: Running(StopTimer(log, t, clock).0.events, i) ==> Running(log.events, i)
    ensures forall i :: Running(log.events, i) && log.events[i].taskId != t ==> Running(StopTimer(log, t, clock).0.events, i)
    ensures AtMostOneRunning(log) ==> forall i :: Running(StopTimer(log, t, clock).0.events, i) ==> log.events[i].taskId != t
  {
    match FindRunningEntryByTask(log, t)
    case None =>
    case Some(x) =>
      var k :| Running(log.events, k) && log.events[k].taskId == t && x == IntervalOf(log.events, k);
      StopOneRunning(log, k, clock);
  }

  /** Saving the stop of running start `k` keeps the log well formed and stops exactly that
      interval. */
  lemma StopOneRunning(log: Log, k: int, clock: int)
    requires Wf(log) && Running(log.events, k)
    ensures Wf(SaveEvent(log, StopNow(log.events[k].taskId, k + 1, clock)).0)
    ensures forall i :: Running(SaveEvent(log, StopNow(log.events[k].taskId, k + 1, clock)).0.events, i) <==>
      Running(log.events, i) && i != k
  {
    var stop := StopNow(log.events[k].taskId, k + 1, clock);
    SaveEventKeepsWf(log, stop);
    SaveEventRunning(log, stop);
  }

  /** Saving a start on a well-formed log adds one running interval and stops none. */
  lemma SaveStartRunning(log: Log, t: TaskId, clock: int)
    requires Wf(log)
    ensures Wf(SaveEvent(log, StartNow(t, clock)).0)
    ensures forall i :: Running(SaveEvent(log, StartNow(t, clock)).0.events, i) <==> Running(log.events, i) || i == |log.events|
  {
    SaveEventKeepsWf(log, StartNow(t, clock));
    SaveEventRunning(log, StartNow(t, clock));
  }

  /** `start_timer`: stops every other task's running interval, then the task's own newest
      one exactly as `stop_timer` does, then saves a start for the task. Returns the saved
      start. */
  function StartTimer(log: Log, t: TaskId, clock: int): (r: (Log, Event))
    ensures r.1.IsStart() && r.1.taskId == t && r.1.at == clock
    ensures |r.0.events| > |log.events| && r.0.events[|r.0.events| - 1] == r.1
  {
    var afterOthers := StopOthers(log, t, clock);
    var afterSame := StopTimer(afterOthers, t, clock).0;
    SaveEvent(afterSame, StartNow(t, clock))
  }

  /** `start_timer` only appends: the log before the call is a prefix of the log after. */
  lemma StartTimerExtends(log: Log, t: TaskId, clock: int)
    ensures log.events <= StartTimer(log, t, clock).0.events
  {
    var afterOthers := StopOthers(log, t, clock);
    var afterSame := StopTimer(afterOthers, t, clock).0;
    assert log.events <= afterOthers.events;
    assert afterOthers.events <= afterSame.events;
  }

  /** After `start_timer` the new interval runs, and every running interval is the task's. */
  lemma StartTimerRuns(log: Log, t: TaskId, clock: int)
    requires Wf(log)
    ensures Wf(StartTimer(log, t, clock).0)
    ensures Running(StartTimer(log, t, clock).0.events, |StartTimer(log, t, clock).0.events| - 1)
    ensures forall i :: Running(StartTimer(log, t, clock).0.events, i) ==> StartTimer(log, t, clock).0.events[i].taskId == t
  {
    var afterOthers := StopOthers(log, t, clock);
    StopOthersRunning(log, t, clock);
    var afterSame := StopTimer(afterOthers, t, clock).0;
    StopTimerEffect(afterOthers, t, clock);
    SaveStartRunning(afterSame, t, clock);
    var last := StartTimer(log, t, clock).0;
    forall i | Running(last.events, i)
      ensures last.events[i].taskId == t
    {
      if i < |afterSame.events| {
        assert Running(afterOthers.events, i);
        assert last.events[i] == afterOthers.events[i];
      }
    }
  }

  /** When at most one interval ran before, only the new one runs after `start_timer`. */
  lemma StartTimerExclusive(log: Log, t: TaskId, clock: int)
    requires Wf(log)
    requires AtMostOneRunning(log)
    ensures forall i :: Running(StartTimer(log, t, clock).0.events, i) <==> i == |StartTimer(log, t, clock).0.events| - 1
    ensures AtMostOneRunning(StartTimer(log, t, clock).0)
  {
    var afterOthers := StopOthers(log, t, clock);
    StopOthersRunning(log, t, clock);
    assert AtMostOneRunning(afterOthers);
    var afterSame := StopTimer(afterOthers, t, clock).0;
    StopTimerEffect(afterOthers, t, clock);
    assert forall i :: !Running(afterSame.events, i) by {
      forall i
        ensures !Running(afterSame.events, i)
      {
        if Running(afterOthers.events, i) {
          assert afterOthers.events[i].taskId == t;
        }
      }
    }
    SaveStartRunning(afterSame, t, clock);
  }

  /** `get_running_task`: the task of the newest running interval. */
  function GetRunningTask(log: Log): (r: Option<TaskId>)
    ensures r.None? <==> forall i :: !Running(log.events, i)
    ensures r.Some? ==> exists i :: Running(log.events, i) && log.events[i].taskId == r.value
  {
    var xs := FindRunningEntries(log);
    assert |xs| == 0 ==> forall i :: !Running(log.events, i) by {
      forall i | Running(log.events, i)
        ensures IntervalOf(log.events, i) in xs
      {
      }
    }
    if |xs| == 0 then None
    else
      assert xs[0] in xs;
      Some(xs[0].taskId)
  }

  /** `is_task_running`. */
  function IsTaskRunning(log: Log, t: TaskId): (b: bool)
    ensures b <==> exists i :: Running(log.events, i) && log.events[i].taskId == t
  {
    FindRunningEntryByTask(log, t).Some?
  }

  /** With at most one running interval, the running task is the one `is_task_running`
      reports. */
  lemma RunningTaskAgrees(log: Log, t: TaskId)
    requires AtMostOneRunning(log)
    ensures IsTaskRunning(log, t) <==> GetRunningTask(log) == Some(t)
  {
  }

  /** With at most one running interval, `stop_timer` reports a stop exactly when the task
      was running, and the task is stopped afterwards. */
  lemma StopTimerStops(log: Log, t: TaskId, clock: int)
    requires Wf(log)
    requires AtMostOneRunning(log)
    ensures StopTimer(log, t, clock).1.Some? <==> IsTaskRunning(log, t)
    ensures !IsTaskRunning(StopTimer(log, t, clock).0, t)
    ensures AtMostOneRunning(StopTimer(log, t, clock).0)
  {
    StopTimerEffect(log, t, clock);
  }

  /** After `start_timer` on a log with at most one running interval, the task is the
      running one and no other task runs. */
  lemma StartTimerMakesRunning(log: Log, t: TaskId, u: TaskId, clock: int)
    requires Wf(log)
    requires AtMostOneRunning(log)
    ensures GetRunningTask(StartTimer(log, t, clock).0) == Some(t)
    ensures IsTaskRunning(StartTimer(log, t, clock).0, u) <==> u == t
  {
    StartTimerRuns(log, t, clock);
    StartTimerExclusive(log, t, clock);
    RunningTaskAgrees(StartTimer(log, t, clock).0, t);
    RunningTaskAgrees(StartTimer(log, t, clock).0, u);
  }

  /** The start and stop of a manual entry, saved in that order; the stop names the start by
      the id it was saved under. */
  function SaveManualPair(log: Log, t: TaskId, start: int, end: int): (r: (Log, Event, Event))
    ensures r.1.IsStart() && r.1.taskId == t && r.1.at == start && r.1.id == Some(log.counter)
    ensures r.2.IsStop() && r.2.taskId == t && r.2.at == end && r.2.startEventId == r.1.id
    ensures r.0.events == log.events + [r.1, r.2]
  {
    var (withStart, started) := SaveEvent(log, StartAt(t, start));
    var (withStop, stopped) := SaveEvent(withStart, StopAt(t, started.id.value, end));
    (withStop, started, stopped)
  }

  /** The note of a manual entry, if any, saved as an annotation stamped `clock`. */
  function SaveNote(log: Log, t: TaskId, sid: int, note: Option<string>, clock: int): (r: Log)
    ensures note.None? ==> r == log
    ensures note.Some? ==> |r.events| == |log.events| + 1 && r.events[..|log.events|] == log.events
    ensures note.Some? ==> r.events[|log.events|].IsAnnotate() && r.events[|log.events|].payload == note
  {
    match note
    case None => log
    case Some(text) => SaveEvent(log, AnnotateNow(t, sid, text, clock)).0
  }

  /** `add_manual_entry`: a completed interval `[start, end)` for the task, refused when the
      times are out of order or it overlaps one of the task's intervals; the note, if any,
      becomes an annotation stamped `clock`. */
  function AddManualEntry(log: Log, t: TaskId, start: int, end: int, note: Option<string>, clock: int): (r: (Log, Result<(Event, Event)>))
    ensures start >= end ==> r.1 == Err(StartNotBeforeEnd)
    ensures r.1.Ok? <==> (start < end &&
      forall i :: Opens(log.events, i) && log.events[i].taskId == t ==> !Overlaps(IntervalOf(log.events, i), start, end))
    ensures start < end && r.1.Err? ==> r.1.error == OverlapsExistingEntry
    ensures r.1.Err? ==> r.0 == log
    ensures r.1.Ok? ==> r.1.value.0.IsStart() && r.1.value.0.taskId == t && r.1.value.0.at == start
    ensures r.1.Ok? ==> r.1.value.1.IsStop() && r.1.value.1.taskId == t && r.1.value.1.at == end
    ensures r.1.Ok? ==> r.1.value.1.startEventId == r.1.value.0.id
  {
    var overlapping := FindOverlappingEntries(log, t, start, end);
    assert |overlapping| > 0 <==> exists i :: Opens(log.events, i) && log.events[i].taskId == t && Overlaps(IntervalOf(log.events, i), start, end) by {
      if |overlapping| > 0 {
        assert overlapping[0] in overlapping;
      }
      forall i | Opens(log.events, i) && log.events[i].taskId == t && Overlaps(IntervalOf(log.events, i), start, end)
        ensures IntervalOf(log.events, i) in overlapping
      {
      }
    }
    if start >= end then (log, Err(StartNotBeforeEnd))
    else if |overlapping| > 0 then (log, Err(OverlapsExistingEntry))
    else
      var (withStop, started, stopped) := SaveManualPair(log, t, start, end);
      (SaveNote(withStop, t, started.id.value, note, clock), Ok((started, stopped)))
  }

  /** The pair opens a completed interval at position `|log.events|` and changes no running
      interval. */
  lemma ManualPairEffect(log: Log, t: TaskId, start: int, end: int)
    requires Wf(log)
    ensures Wf(SaveManualPair(log, t, start, end).0)
    ensures Opens(SaveManualPair(log, t, start, end).0.events, |log.events|)
    ensures FirstStop(SaveManualPair(log, t, start, end).0.events, |log.events| + 1) == Some(|log.events| + 1)
    ensures forall i :: Running(SaveManualPair(log, t, start, end).0.events, i) <==> Running(log.events, i)
  {
    var n := |log.events|;
    var (withStart, started) := SaveEvent(log, StartAt(t, start));
    SaveEventKeepsWf(log, StartAt(t, start));
    SaveEventRunning(log, StartAt(t, start));
    var stop := StopAt(t, n + 1, end);
    SaveEventKeepsWf(withStart, stop);
    SaveEventRunning(withStart, stop);
    assert FirstStop(log.events, n + 1).None? by {
      forall j | 0 <= j < n
        ensures !StopsStart(log.events[j], n + 1)
      {
        assert RefersBack(log.events, j);
      }
    }
    FirstStopAppend(log.events, started, n + 1);
    FirstStopAppend(withStart.events, SaveEvent(withStart, stop).1, n + 1);
  }

  /** An annotation is neither a start nor a stop: it changes no interval. */
  lemma SaveNoteEffect(log: Log, t: TaskId, sid: int, note: Option<string>, clock: int)
    requires Wf(log)
    requires 1 <= sid <= |log.events| && log.events[sid - 1].IsStart()
    ensures Wf(SaveNote(log, t, sid, note, clock))
    ensures forall s :: FirstStop(SaveNote(log, t, sid, note, clock).events, s) == FirstStop(log.events, s)
    ensures forall i :: Opens(SaveNote(log, t, sid, note, clock).events, i) <==> Opens(log.events, i)
  {
    match note
    case None =>
    case Some(text) =>
      var e := AnnotateNow(t, sid, text, clock);
      SaveEventKeepsWf(log, e);
      forall s
        ensures FirstStop(SaveNote(log, t, sid, note, clock).events, s) == FirstStop(log.events, s)
      {
        FirstStopAppend(log.events, SaveEvent(log, e).1, s);
      }
  }

  /** A manual entry adds one completed interval of `end - start` seconds and changes no
      running interval. */
  lemma AddManualEntryEffect(log: Log, t: TaskId, start: int, end: int, note: Option<string>, clock: int)
    requires Wf(log)
    requires AddManualEntry(log, t, start, end, note, clock).1.Ok?
    ensures Wf(AddManualEntry(log, t, start, end, note, clock).0)
    ensures Opens(AddManualEntry(log, t, start, end, note, clock).0.events, |log.events|)
    ensures IntervalOf(AddManualEntry(log, t, start, end, note, clock).0.events, |log.events|)
         == NewEntry(t, |log.events| + 1, start, Some(end))
    ensures forall i :: Running(AddManualEntry(log, t, start, end, note, clock).0.events, i) <==> Running(log.events, i)
  {
    var n := |log.events|;
    var (withStop, started, stopped) := SaveManualPair(log, t, start, end);
    ManualPairEffect(log, t, start, end);
    SaveNoteEffect(withStop, t, n + 1, note, clock);
    var last := SaveNote(withStop, t, n + 1, note, clock);
    assert last == AddManualEntry(log, t, start, end, note, clock).0;
    assert last.events[n] == withStop.events[n] && last.events[n + 1] == withStop.events[n + 1];
  }

  /** `stop_all_timers`: saves a stop for every running interval. Returns the stops. */
  function StopAllTimers(log: Log, clock: int): (r: (Log, seq<Event>))
    ensures |r.1| == |FindRunningEntries(log)|
    ensures r.0.events == log.events + r.1
    ensures forall k :: 0 <= k < |r.1| ==> r.1[k].IsStop() && r.1[k].at == clock
  {
    StopEach(log, FindRunningEntries(log), None, clock)
  }

  /** After `stop_all_timers` nothing runs. */
  lemma StopAllTimersStopsAll(log: Log, clock: int)
    requires Wf(log)
    ensures Wf(StopAllTimers(log, clock).0)
    ensures forall i :: !Running(StopAllTimers(log, clock).0.events, i)
    ensures GetRunningTask(StopAllTimers(log, clock).0).None?
  {
    var xs := FindRunningEntries(log);
    RunningEntriesNameStarts(log);
    StopEachRunning(log, xs, None, clock);
    forall i | 0 <= i < |log.events| && Running(log.events, i)
      ensures StopsOne(xs, None, i + 1)
    {
      assert IntervalOf(log.events, i) in xs;
    }
  }

  /** Starting a task and then stopping all timers saves exactly one stop, for that task:
      the source's own scenario of two tasks started in turn. */
  lemma StartThenStopAll(log: Log, t: TaskId, clock: int, later: int)
    requires Wf(log)
    requires AtMostOneRunning(log)
    ensures |StopAllTimers(StartTimer(log, t, clock).0, later).1| == 1
    ensures StopAllTimers(StartTimer(log, t, clock).0, later).1[0].taskId == t
  {
    var started := StartTimer(log, t, clock).0;
    StartTimerRuns(log, t, clock);
    StartTimerExclusive(log, t, clock);
    var k := |started.events| - 1;
    RunningCountSingle(started.events, k, |started.events|);
    var stops := StopAllTimers(started, later).1;
    assert exists x :: x in FindRunningEntries(started) && stops[0].taskId == x.taskId;
  }
}
