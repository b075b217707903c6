/** Time entry events and the intervals built from them. The event log is append-only:
    a `start` event opens an interval, a `stop` event closes the interval whose start it
    names, and an `annotate` event attaches a note to one. `clock` stands for `Utc::now()`. */
module TimeEntries {
  import opened Base
  import opened TaskIds
  import Durations

  datatype EventType = Start | Stop | Annotate

  /** `TimeEntryEventType::as_str`. */
  function EventTypeAsStr(t: EventType): (s: string)
    ensures s == "start" || s == "stop" || s == "annotate"
    ensures s == "start" <==> t == Start
    ensures s == "stop" <==> t == Stop
  {
    match t
    case Start => "start"
    case Stop => "stop"
    case Annotate => "annotate"
  }

  /** `TimeEntryEventType::from_str`: only the three storage spellings are accepted. */
  function EventTypeFromStr(s: string): (r: Result<EventType>)
    ensures r.Ok? <==> s == "start" || s == "stop" || s == "annotate"
    ensures r.Ok? ==> EventTypeAsStr(r.value) == s
    ensures r.Err? ==> r.error == InvalidEventType(s)
  {
    match s
    case "start" => Ok(Start)
    case "stop" => Ok(Stop)
    case "annotate" => Ok(Annotate)
    case _ => Err(InvalidEventType(s))
  }

  /** `TimeEntryEvent`: `id` is unset until the repository stores the event. */
  datatype Event = Event(
    id: Option<int>,
    taskId: TaskId,
    kind: EventType,
    at: int,
    startEventId: Option<int>,
    payload: Option<string>)
  {
    predicate IsStart() {
      kind == Start
    }

    predicate IsStop() {
      kind == Stop
    }

    predicate IsAnnotate() {
      kind == Annotate
    }
  }

  /** An event as the constructors build it: unsaved, a start names no start, and only an
      annotation carries a payload. */
  predicate Fresh(e: Event) {
    && e.id.None?
    && (e.IsStart() <==> e.startEventId.None?)
    && (e.IsAnnotate() <==> e.payload.Some?)
  }

  /** `TimeEntryEvent::start_at`. */
  function StartAt(taskId: TaskId, at: int): (e: Event)
    ensures Fresh(e) && e.IsStart()
    ensures e.taskId == taskId && e.at == at
  {
    Event(None, taskId, Start, at, None, None)
  }

  /** `TimeEntryEvent::start`: a start at the current time. */
  function StartNow(taskId: TaskId, clock: int): (e: Event)
    ensures Fresh(e) && e.IsStart()
    ensures e.taskId == taskId && e.at == clock
  {
    StartAt(taskId, clock)
  }

  /** `TimeEntryEvent::stop_at`. */
  function StopAt(taskId: TaskId, startEventId: int, at: int): (e: Event)
    ensures Fresh(e) && e.IsStop()
    ensures e.taskId == taskId && e.at == at && e.startEventId == Some(startEventId)
  {
    Event(None, taskId, Stop, at, Some(startEventId), None)
  }

  /** `TimeEntryEvent::stop`: a stop at the current time. */
  function StopNow(taskId: TaskId, startEventId: int, clock: int): (e: Event)
    ensures Fresh(e) && e.IsStop()
    ensures e.taskId == taskId && e.at == clock && e.startEventId == Some(startEventId)
  {
    StopAt(taskId, startEventId, clock)
  }

  /** `TimeEntryEvent::annotate`: a note on an interval, stamped with the current time. */
  function AnnotateNow(taskId: TaskId, startEventId: int, note: string, clock: int): (e: Event)
    ensures Fresh(e) && e.IsAnnotate()
    ensures e.taskId == taskId && e.at == clock
    ensures e.startEventId == Some(startEventId) && e.payload == Some(note)
  {
    Event(None, taskId, Annotate, clock, Some(startEventId), Some(note))
  }

  /** `TimeEntryEvent::with_id`: sets the id and nothing else. */
  function WithId(e: Event, id: int): (r: Event)
    ensures r.id == Some(id)
    ensures r.(id := e.id) == e
  {
    e.(id := Some(id))
  }

  /** Every event is exactly one of start, stop and annotate. */
  lemma ExactlyOneKind(e: Event)
    ensures (if e.IsStart() then 1 else 0) + (if e.IsStop() then 1 else 0)
          + (if e.IsAnnotate() then 1 else 0) == 1
  {
  }

  /** Storing and reading back an event type gives the same type. */
  lemma EventTypeRoundTrip(t: EventType)
    ensures EventTypeFromStr(EventTypeAsStr(t)) == Ok(t)
  {
  }

  /** `TimeEntry`: an interval built from a start event and, once stopped, its stop. */
  datatype TimeEntry = TimeEntry(
    taskId: TaskId,
    startEventId: int,
    startTime: int,
    endTime: Option<int>,
    durationInSeconds: Option<int>)
  {
    predicate IsRunning() {
      endTime.None?
    }

    predicate IsCompleted() {
      endTime.Some?
    }
  }

  /** The duration is known exactly when the end is, and is end minus start. */
  predicate Consistent(e: TimeEntry) {
    && (e.durationInSeconds.Some? <==> e.endTime.Some?)
    && (e.endTime.Some? ==> e.startTime + e.durationInSeconds.value == e.endTime.value)
  }

  /** `TimeEntry::new`: derives the duration from the end time, if any. */
  function NewEntry(taskId: TaskId, startEventId: int, startTime: int, endTime: Option<int>): (r: TimeEntry)
    ensures Consistent(r)
    ensures r.taskId == taskId && r.startEventId == startEventId
    ensures r.startTime == startTime && r.endTime == endTime
  {
    var duration := if endTime.Some? then Some(endTime.value - startTime) else None;
    TimeEntry(taskId, startEventId, startTime, endTime, duration)
  }

  /** `TimeEntry::elapsed_seconds`: the stored duration once stopped, the time since the
      start while running. */
  function ElapsedSeconds(e: TimeEntry, now: int): (s: int)
    ensures Consistent(e) && e.IsCompleted() ==> e.durationInSeconds == Some(s)
    ensures e.IsRunning() ==> e.startTime + s == now
  {
    match e.endTime
    case Some(end) => end - e.startTime
    case None => now - e.startTime
  }

  /** `TimeEntry::elapsed_duration`: the elapsed seconds as `HH:MM:SS`. */
  function ElapsedDuration(e: TimeEntry, now: int): string {
    var secs := ElapsedSeconds(e, now);
    Durations.FormatHms(secs)
  }

  lemma ElapsedDurationReadsBack(e: TimeEntry, now: int)
    requires ElapsedSeconds(e, now) >= 0
    ensures Durations.ParseHms(ElapsedDuration(e, now)) == Some(ElapsedSeconds(e, now))
  {
    Durations.FormatParseRoundTrip(ElapsedSeconds(e, now));
  }

  /** An interval is running or completed, never both. */
  lemma RunningOrCompleted(e: TimeEntry)
    ensures e.IsRunning() != e.IsCompleted()
  {
  }
}
