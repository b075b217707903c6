/** The time-tracking DTOs: request records turned into commands, and responses built from
    events, intervals and timer readings, with durations rendered as `HH:MM:SS`. `now` stands
    for the `Utc::now()` that `TimeEntry::elapsed_duration` reads. */
module TimeEntryDtos {
  import opened Base
  import opened TaskIds
  import opened TimeEntries
  import opened Timestamps
  import Durations

  /** `format_duration_seconds`: hours, minutes and seconds, each at least two digits. */
  function FormatDurationSeconds(seconds: int): (s: string)
    ensures seconds >= 0 ==> Durations.ParseHms(s) == Some(seconds)
  {
    assert seconds >= 0 ==> Durations.ParseHms(Durations.FormatHms(seconds)) == Some(seconds) by {
      if seconds >= 0 {
        Durations.FormatParseRoundTrip(seconds);
      }
    }
    Durations.FormatHms(seconds)
  }

  /** For a duration that is not negative the rendered fields are whole hours, minutes under
      60 and seconds under 60 that add back up to it; hours are not capped at 24. */
  lemma FormatFields(seconds: int)
    requires seconds >= 0
    ensures var h := Durations.Quot(seconds, 3600);
            var m := Durations.Quot(Durations.Rem(seconds, 3600), 60);
            var s := Durations.Rem(seconds, 60);
            && FormatDurationSeconds(seconds) == Durations.Pad2(h) + ":" + Durations.Pad2(m) + ":" + Durations.Pad2(s)
            && h >= 0 && 0 <= m < 60 && 0 <= s < 60 && h * 3600 + m * 60 + s == seconds
  {
    Durations.Split(seconds);
  }

  datatype StartTimerRequest = StartTimerRequest(taskId: int)

  datatype StopTimerRequest = StopTimerRequest(taskId: int)

  datatype AddManualEntryRequest = AddManualEntryRequest(taskId: int, startTime: Stamp, endTime: Stamp, note: Option<string>)

  /** `AddManualEntryCommand`. */
  datatype ManualEntryCommand = ManualEntryCommand(taskId: TaskId, startTime: int, endTime: int, note: Option<string>)

  /** `StartTimerRequest::to_command` (and `StopTimerRequest::to_command`, which is the same
      check): the task id must be positive. */
  function StartTimerCommand(req: StartTimerRequest): (r: Result<TaskId>)
    ensures r.Ok? <==> req.taskId > 0
    ensures r.Ok? ==> TaskIds.ToInt(r.value) == req.taskId
    ensures r.Err? ==> r.error == IdNotPositive(TaskKind)
  {
    TaskIds.New(req.taskId)
  }

  function StopTimerCommand(req: StopTimerRequest): (r: Result<TaskId>)
    ensures r.Ok? <==> req.taskId > 0
    ensures r.Ok? ==> TaskIds.ToInt(r.value) == req.taskId
    ensures r.Err? ==> r.error == IdNotPositive(TaskKind)
  {
    TaskIds.New(req.taskId)
  }

  /** `AddManualEntryRequest::to_command`: the task id, then the start, then the end are
      checked; the note is passed on as it is. The order of start and end is left to the
      service. */
  function ManualEntryCommandOf(req: AddManualEntryRequest): (r: Result<ManualEntryCommand>)
    ensures req.taskId <= 0 ==> r == Err(IdNotPositive(TaskKind))
    ensures req.taskId > 0 && req.startTime.Unparsable? ==> r == Err(MalformedTimestamp(req.startTime.text))
    ensures req.taskId > 0 && !req.startTime.Unparsable? && req.endTime.Unparsable?
      ==> r == Err(MalformedTimestamp(req.endTime.text))
    ensures r.Ok? <==> req.taskId > 0 && !req.startTime.Unparsable? && !req.endTime.Unparsable?
    ensures r.Ok? ==> && TaskIds.ToInt(r.value.taskId) == req.taskId
                      && Timestamps.Parse(req.startTime) == Ok(r.value.startTime)
                      && Timestamps.Parse(req.endTime) == Ok(r.value.endTime)
                      && r.value.note == req.note
  {
    var taskId :- TaskIds.New(req.taskId);
    var start :- Timestamps.Parse(req.startTime);
    var end :- Timestamps.Parse(req.endTime);
    Ok(ManualEntryCommand(taskId, start, end, req.note))
  }

  /** A request naming the command's instants, in any accepted spelling, converts back to
      that command. */
  lemma ManualEntryRequestRoundTrip(cmd: ManualEntryCommand, start: Stamp, end: Stamp)
    requires Timestamps.Parse(start) == Ok(cmd.startTime) && Timestamps.Parse(end) == Ok(cmd.endTime)
    ensures ManualEntryCommandOf(AddManualEntryRequest(TaskIds.ToInt(cmd.taskId), start, end, cmd.note)) == Ok(cmd)
  {
  }

  datatype EventResponse = EventResponse(
    id: int,
    taskId: int,
    eventType: string,
    at: Stamp,
    startEventId: Option<int>,
    payload: Option<string>)

  /** `From<TimeEntryEvent> for TimeEntryEventResponse`: an event not yet saved shows id 0. */
  function FromEvent(e: Event): (r: EventResponse)
    ensures r.id == (if e.id.Some? then e.id.value else 0)
    ensures TaskIds.New(r.taskId) == Ok(e.taskId)
    ensures EventTypeFromStr(r.eventType) == Ok(e.kind)
    ensures Timestamps.Parse(r.at) == Ok(e.at) && r.at.Zulu?
    ensures r.startEventId == e.startEventId && r.payload == e.payload
  {
    EventTypeRoundTrip(e.kind);
    EventResponse(e.id.GetOr(0), TaskIds.ToInt(e.taskId), EventTypeAsStr(e.kind), FormatZulu(e.at), e.startEventId, e.payload)
  }

  datatype EntryResponse = EntryResponse(
    taskId: int,
    startEventId: int,
    startTime: Stamp,
    endTime: Option<Stamp>,
    durationInSeconds: Option<int>,
    elapsedDuration: string,
    isRunning: bool,
    isCompleted: bool)

  /** `From<TimeEntry> for TimeEntryResponse`: the duration and the running flags are copied;
      the elapsed time is rendered at `now`. */
  function FromEntry(e: TimeEntry, now: int): (r: EntryResponse)
    ensures TaskIds.New(r.taskId) == Ok(e.taskId) && r.startEventId == e.startEventId
    ensures Timestamps.Parse(r.startTime) == Ok(e.startTime) && r.startTime.Zulu?
    ensures r.endTime.Some? <==> e.endTime.Some?
    ensures r.endTime.Some? ==> Timestamps.Parse(r.endTime.value) == Ok(e.endTime.value)
    ensures r.durationInSeconds == e.durationInSeconds
    ensures r.isRunning == e.IsRunning() && r.isCompleted == e.IsCompleted()
    ensures r.isRunning != r.isCompleted
    ensures ElapsedSeconds(e, now) >= 0 ==> Durations.ParseHms(r.elapsedDuration) == Some(ElapsedSeconds(e, now))
  {
    assert ElapsedSeconds(e, now) >= 0 ==> Durations.ParseHms(ElapsedDuration(e, now)) == Some(ElapsedSeconds(e, now)) by {
      if ElapsedSeconds(e, now) >= 0 {
        ElapsedDurationReadsBack(e, now);
      }
    }
    var end := if e.endTime.Some? then Some(FormatZulu(e.endTime.value)) else None;
    EntryResponse(TaskIds.ToInt(e.taskId), e.startEventId, FormatZulu(e.startTime), end,
                  e.durationInSeconds, ElapsedDuration(e, now), e.IsRunning(), e.IsCompleted())
  }

  /** A rendered duration, present exactly when the seconds are. */
  function FormatOptional(seconds: Option<int>): (r: Option<string>)
    ensures r.Some? <==> seconds.Some?
    ensures r.Some? ==> r.value == FormatDurationSeconds(seconds.value)
  {
    if seconds.Some? then Some(FormatDurationSeconds(seconds.value)) else None
  }

  datatype TimerStatusResponse = TimerStatusResponse(
    isRunning: bool,
    currentEntry: Option<EntryResponse>,
    elapsedSeconds: Option<int>,
    elapsedDuration: Option<string>)

  /** `TimerStatusResponse::new`: the elapsed duration is rendered exactly when the elapsed
      seconds are given. */
  function TimerStatus(isRunning: bool, current: Option<TimeEntry>, elapsed: Option<int>, now: int): (r: TimerStatusResponse)
    ensures r.isRunning == isRunning && r.elapsedSeconds == elapsed
    ensures r.currentEntry.Some? <==> current.Some?
    ensures r.currentEntry.Some? ==> r.currentEntry.value == FromEntry(current.value, now)
    ensures r.elapsedDuration.Some? <==> elapsed.Some?
    ensures elapsed.Some? && elapsed.value >= 0 ==> Durations.ParseHms(r.elapsedDuration.value) == elapsed
  {
    var entry := if current.Some? then Some(FromEntry(current.value, now)) else None;
    TimerStatusResponse(isRunning, entry, elapsed, FormatOptional(elapsed))
  }

  datatype CurrentTimerResponse = CurrentTimerResponse(taskId: Option<int>, elapsedSeconds: Option<int>, elapsedDuration: Option<string>)

  /** `CurrentTimerResponse::new`: the same rule as the timer status. */
  function CurrentTimer(taskId: Option<TaskId>, elapsed: Option<int>): (r: CurrentTimerResponse)
    ensures r.taskId.Some? <==> taskId.Some?
    ensures r.taskId.Some? ==> TaskIds.New(r.taskId.value) == Ok(taskId.value)
    ensures r.elapsedSeconds == elapsed
    ensures r.elapsedDuration.Some? <==> elapsed.Some?
    ensures elapsed.Some? && elapsed.value >= 0 ==> Durations.ParseHms(r.elapsedDuration.value) == elapsed
  {
    var id := if taskId.Some? then Some(TaskIds.ToInt(taskId.value)) else None;
    CurrentTimerResponse(id, elapsed, FormatOptional(elapsed))
  }

  datatype TaskSummaryResponse = TaskSummaryResponse(taskId: int, totalSeconds: int, totalFormatted: string, entryCount: nat, isRunning: bool)

  /** `TaskTimeSummaryResponse::new`: the total rendered with the same format. */
  function TaskSummary(taskId: TaskId, total: int, entryCount: nat, isRunning: bool): (r: TaskSummaryResponse)
    ensures TaskIds.New(r.taskId) == Ok(taskId)
    ensures r.totalSeconds == total && r.entryCount == entryCount && r.isRunning == isRunning
    ensures total >= 0 ==> Durations.ParseHms(r.totalFormatted) == Some(total)
  {
    TaskSummaryResponse(TaskIds.ToInt(taskId), total, FormatDurationSeconds(total), entryCount, isRunning)
  }

  datatype ProjectSummaryResponse = ProjectSummaryResponse(projectId: int, totalSeconds: int, totalFormatted: string, entryCount: nat)

  /** `ProjectTimeSummaryResponse::new`: the project id is passed through unchecked. */
  function ProjectSummary(projectId: int, total: int, entryCount: nat): (r: ProjectSummaryResponse)
    ensures r.projectId == projectId && r.totalSeconds == total && r.entryCount == entryCount
    ensures total >= 0 ==> Durations.ParseHms(r.totalFormatted) == Some(total)
  {
    ProjectSummaryResponse(projectId, total, FormatDurationSeconds(total), entryCount)
  }
}
