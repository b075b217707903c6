/** `TimeTrackingUseCasesImpl`: the guards the application puts around the timer service
    (the task must exist, and be active to start a timer or add an entry), and the timer
    status query. `clock` stands for `Utc::now()`, read once per command. */
module TimeTrackingUseCases {
  import opened Base
  import opened TaskIds
  import opened Tasks
  import opened TimeEntries
  import opened TimeEntryRepository
  import TR = TaskRepository
  import TTS = TimeTrackingService

  /** `TimerStatus`: whether the task's timer runs, its running interval and the seconds
      elapsed on it. */
  datatype TimerStatus = TimerStatus(isRunning: bool, currentEntry: Option<TimeEntry>, elapsedSeconds: Option<int>)

  /** `start_timer`: only an existing, active task can be started. */
  function StartTimer(tasks: TR.Repo, log: Log, t: TaskId, clock: int): (r: (Log, Result<Event>))
    ensures TR.FindById(tasks, t).None? ==> r == (log, Err(TaskNotFound))
    ensures TR.FindById(tasks, t).Some? && TR.FindById(tasks, t).value.IsArchived() ==> r == (log, Err(CannotStartArchivedTask))
    ensures r.1.Ok? <==> TR.FindById(tasks, t).Some? && TR.FindById(tasks, t).value.IsActive()
    ensures r.1.Ok? ==> r.1.value.IsStart() && r.1.value.taskId == t && r.1.value.at == clock
    ensures r.1.Ok? ==> |r.0.events| > |log.events| && log.events <= r.0.events
  {
    match TR.FindById(tasks, t)
    case None => (log, Err(TaskNotFound))
    case Some(task) =>
      if task.IsArchived() then (log, Err(CannotStartArchivedTask))
      else
        var (after, started) := TTS.StartTimer(log, t, clock);
        TTS.StartTimerExtends(log, t, clock);
        (after, Ok(started))
  }

  /** `stop_timer`: the task must exist; an archived task's timer can still be stopped. */
  function StopTimer(tasks: TR.Repo, log: Log, t: TaskId, clock: int): (r: (Log, Result<Option<Event>>))
    ensures TR.FindById(tasks, t).None? ==> r == (log, Err(TaskNotFound))
    ensures r.1.Ok? <==> TR.FindById(tasks, t).Some?
    ensures r.1.Ok? && r.1.value.None? ==> r.0 == log
    ensures r.1.Ok? ==> (r.1.value.Some? <==> FindRunningEntryByTask(log, t).Some?)
    ensures r.1.Ok? && r.1.value.Some? ==> r.0.events == log.events + [r.1.value.value] && r.1.value.value.IsStop()
  {
    match TR.FindById(tasks, t)
    case None => (log, Err(TaskNotFound))
    case Some(_) =>
      var (after, stopped) := TTS.StopTimer(log, t, clock);
      (after, Ok(stopped))
  }

  /** `get_timer_status`: the running interval and its elapsed seconds when the task runs,
      nothing otherwise. */
  function GetTimerStatus(log: Log, t: TaskId, clock: int): (r: TimerStatus)
    ensures r.isRunning <==> TTS.IsTaskRunning(log, t)
    ensures !r.isRunning ==> r.currentEntry.None? && r.elapsedSeconds.None?
    ensures r.isRunning ==> r.currentEntry.Some? && r.elapsedSeconds.Some?
    ensures r.isRunning ==> r.currentEntry.value.taskId == t && r.currentEntry.value.IsRunning()
    ensures r.isRunning ==> r.currentEntry.value.startTime + r.elapsedSeconds.value == clock
  {
    if TTS.IsTaskRunning(log, t) then
      var current := FindRunningEntryByTask(log, t);
      TimerStatus(true, current, if current.Some? then Some(ElapsedSeconds(current.value, clock)) else None)
    else
      TimerStatus(false, None, None)
  }

  /** `add_manual_entry`: only an existing, active task takes a manual entry. */
  function AddManualEntry(tasks: TR.Repo, log: Log, t: TaskId, start: int, end: int, note: Option<string>, clock: int): (r: (Log, Result<()>))
    ensures TR.FindById(tasks, t).None? ==> r == (log, Err(TaskNotFound))
    ensures TR.FindById(tasks, t).Some? && TR.FindById(tasks, t).value.IsArchived() ==> r == (log, Err(CannotAddEntryToArchivedTask))
    ensures r.1.Err? ==> r.0 == log
    ensures r.1.Ok? <==> (
      && TR.FindById(tasks, t).Some?
      && TR.FindById(tasks, t).value.IsActive()
      && TTS.AddManualEntry(log, t, start, end, note, clock).1.Ok?)
    ensures r.1.Ok? ==> start < end
  {
    match TR.FindById(tasks, t)
    case None => (log, Err(TaskNotFound))
    case Some(task) =>
      if task.IsArchived() then (log, Err(CannotAddEntryToArchivedTask))
      else
        var (after, added) := TTS.AddManualEntry(log, t, start, end, note, clock);
        if added.Err? then (after, Err(added.error)) else (after, Ok(()))
  }

  /** `get_task_entries`: the task must exist. */
  function GetTaskEntries(tasks: TR.Repo, log: Log, t: TaskId): (r: Result<seq<TimeEntry>>)
    ensures r.Err? <==> TR.FindById(tasks, t).None?
    ensures r.Err? ==> r.error == TaskNotFound
    ensures r.Ok? ==> forall x :: x in r.value <==> exists i :: Opens(log.events, i) && log.events[i].taskId == t && x == IntervalOf(log.events, i)
  {
    if TR.FindById(tasks, t).None? then Err(TaskNotFound) else Ok(FindEntriesByTask(log, t))
  }

  /** `get_recent_task_entries`: the task must exist; at most `limit` of its intervals. */
  function GetRecentTaskEntries(tasks: TR.Repo, log: Log, t: TaskId, limit: nat): (r: Result<seq<TimeEntry>>)
    ensures r.Err? <==> TR.FindById(tasks, t).None?
    ensures r.Err? ==> r.error == TaskNotFound
    ensures r.Ok? ==> |r.value| <= limit && forall x :: x in r.value ==> x.taskId == t && Built(log.events, x)
  {
    if TR.FindById(tasks, t).None? then Err(TaskNotFound) else Ok(FindRecentEntriesByTask(log, t, limit))
  }

  /** `get_task_total_duration`: the task must exist; the seconds of its completed
      intervals. */
  function GetTaskTotalDuration(tasks: TR.Repo, log: Log, t: TaskId): (r: Result<int>)
    ensures r.Err? <==> TR.FindById(tasks, t).None?
    ensures r.Err? ==> r.error == TaskNotFound
    ensures r.Ok? ==> r.value == WorkedSeconds(log.events, t, |log.events|)
  {
    if TR.FindById(tasks, t).None? then Err(TaskNotFound) else Ok(SumDurationByTask(log, t))
  }

  /** After `start_timer` the task's newest running interval is the one just opened. */
  lemma NewestRunningAfterStart(log: Log, t: TaskId, clock: int)
    requires Wf(log)
    requires TTS.AtMostOneRunning(log)
    ensures FindRunningEntryByTask(TTS.StartTimer(log, t, clock).0, t).Some?
    ensures FindRunningEntryByTask(TTS.StartTimer(log, t, clock).0, t).value.startTime == clock
  {
    var after := TTS.StartTimer(log, t, clock);
    var events := after.0.events;
    var last := |events| - 1;
    TTS.StartTimerRuns(log, t, clock);
    TTS.StartTimerExclusive(log, t, clock);
    assert Running(events, last) && events[last].taskId == t;
    var r := FindRunningEntryByTask(after.0, t);
    var i :| Running(events, i) && events[i].taskId == t && r.value == IntervalOf(events, i);
    assert i == last;
  }

  /** After `add_manual_entry` the new completed interval is among the task's entries. */
  lemma ManualEntryInTaskEntries(log: Log, t: TaskId, start: int, end: int, note: Option<string>, clock: int)
    requires Wf(log)
    requires TTS.AddManualEntry(log, t, start, end, note, clock).1.Ok?
    ensures NewEntry(t, |log.events| + 1, start, Some(end)) in FindEntriesByTask(TTS.AddManualEntry(log, t, start, end, note, clock).0, t)
  {
    TTS.AddManualEntryEffect(log, t, start, end, note, clock);
    var events := TTS.AddManualEntry(log, t, start, end, note, clock).0.events;
    var n := |log.events|;
    assert Opens(events, n) && events[n].taskId == t && NewEntry(t, n + 1, start, Some(end)) == IntervalOf(events, n);
  }

  /** Right after a task's timer is started, its status shows the new interval, running
      since the start, and the seconds elapsed since then. */
  lemma StatusAfterStart(tasks: TR.Repo, log: Log, t: TaskId, c1: int, c2: int)
    requires Wf(log)
    requires TTS.AtMostOneRunning(log)
    requires StartTimer(tasks, log, t, c1).1.Ok?
    ensures var status := GetTimerStatus(StartTimer(tasks, log, t, c1).0, t, c2);
      && status.isRunning
      && status.currentEntry.Some? && status.currentEntry.value.startTime == c1
      && status.elapsedSeconds.Some? && status.elapsedSeconds.value == c2 - c1
  {
    var after := TTS.StartTimer(log, t, c1).0;
    assert StartTimer(tasks, log, t, c1).0 == after;
    StartedStatus(log, t, c1, c2);
  }

  /** The same over the service call alone. */
  lemma StartedStatus(log: Log, t: TaskId, c1: int, c2: int)
    requires Wf(log)
    requires TTS.AtMostOneRunning(log)
    ensures var status := GetTimerStatus(TTS.StartTimer(log, t, c1).0, t, c2);
      && status.isRunning
      && status.currentEntry.Some? && status.currentEntry.value.startTime == c1
      && status.elapsedSeconds.Some? && status.elapsedSeconds.value == c2 - c1
  {
    NewestRunningAfterStart(log, t, c1);
    TTS.StartTimerMakesRunning(log, t, t, c1);
    RunningStatus(TTS.StartTimer(log, t, c1).0, t, c1, c2);
  }

  /** A task whose newest running interval started at `c1` shows it, with `c2 - c1`
      seconds elapsed at `c2`. */
  lemma RunningStatus(log: Log, t: TaskId, c1: int, c2: int)
    requires TTS.IsTaskRunning(log, t)
    requires FindRunningEntryByTask(log, t).Some? && FindRunningEntryByTask(log, t).value.startTime == c1
    ensures GetTimerStatus(log, t, c2).isRunning
    ensures GetTimerStatus(log, t, c2).currentEntry == FindRunningEntryByTask(log, t)
    ensures GetTimerStatus(log, t, c2).elapsedSeconds.Some?
    ensures GetTimerStatus(log, t, c2).elapsedSeconds.value == c2 - c1
  {
  }

  /** Right after a task's timer is stopped, its status shows nothing running. */
  lemma StatusAfterStop(tasks: TR.Repo, log: Log, t: TaskId, c1: int, c2: int)
    requires Wf(log)
    requires TTS.AtMostOneRunning(log)
    ensures GetTimerStatus(StopTimer(tasks, log, t, c1).0, t, c2)
         == (if TR.FindById(tasks, t).Some? then TimerStatus(false, None, None) else GetTimerStatus(log, t, c2))
  {
    TTS.StopTimerStops(log, t, c1);
  }

  /** A manual entry shows up among the task's entries as the completed interval from
      `start` to `end`, numbered after the events before it. */
  lemma ManualEntryListed(tasks: TR.Repo, log: Log, t: TaskId, start: int, end: int, note: Option<string>, clock: int)
    requires Wf(log)
    requires AddManualEntry(tasks, log, t, start, end, note, clock).1.Ok?
    ensures GetTaskEntries(tasks, AddManualEntry(tasks, log, t, start, end, note, clock).0, t).Ok?
    ensures NewEntry(t, |log.events| + 1, start, Some(end)) in GetTaskEntries(tasks, AddManualEntry(tasks, log, t, start, end, note, clock).0, t).value
  {
    var after := TTS.AddManualEntry(log, t, start, end, note, clock).0;
    assert AddManualEntry(tasks, log, t, start, end, note, clock).0 == after;
    ManualEntryInTaskEntries(log, t, start, end, note, clock);
    TaskEntriesOfKnownTask(tasks, after, t);
  }

  /** For a task that exists, `get_task_entries` is the repository's list of its intervals. */
  lemma TaskEntriesOfKnownTask(tasks: TR.Repo, log: Log, t: TaskId)
    requires TR.FindById(tasks, t).Some?
    ensures GetTaskEntries(tasks, log, t) == Ok(FindEntriesByTask(log, t))
  {
  }
}
