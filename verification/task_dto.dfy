/** `TaskDto`: the flat record a task crosses the application boundary as, and its
    conversion back into a domain entity. `clock` stands for the `Utc::now()` that
    `archive()` reads while rebuilding an archived task. */
module TaskDtos {
  import opened Base
  import opened Text
  import opened Statuses
  import opened ProjectIds
  import opened TaskIds
  import opened Tasks
  import opened Timestamps
  import Names

  datatype TaskDto = TaskDto(id: int, projectId: int, name: string, status: string, effectiveAt: Stamp)

  /** `From<Task> for TaskDto`: every field copied, the status as its storage string. */
  function FromTask(t: Task): (d: TaskDto)
    ensures TaskIds.New(d.id) == Ok(t.id)
    ensures ProjectIds.New(d.projectId) == Ok(t.projectId)
    ensures Statuses.FromStr(d.status) == Ok(t.status)
    ensures d.name == t.name
    ensures Timestamps.Parse(d.effectiveAt) == Ok(t.effectiveAt) && d.effectiveAt.Offset?
  {
    Statuses.RoundTrip(t.status);
    TaskDto(TaskIds.ToInt(t.id), ProjectIds.ToInt(t.projectId), t.name, AsStr(t.status), ToRfc3339(t.effectiveAt))
  }

  /** `TaskDto::to_domain`: the task id, the project id, the status and the timestamp are
      checked in that order; the name goes through `new_with_time`, and an archived status is
      applied with `archive()`, which restamps the task with the clock. */
  function ToDomain(d: TaskDto, clock: int): (r: Result<Task>)
    ensures d.id <= 0 ==> r == Err(IdNotPositive(TaskKind))
    ensures d.id > 0 && d.projectId <= 0 ==> r == Err(IdNotPositive(ProjectKind))
    ensures d.id > 0 && d.projectId > 0 && Statuses.FromStr(d.status).Err? ==> r == Err(InvalidStatus(d.status))
    ensures d.id > 0 && d.projectId > 0 && Statuses.FromStr(d.status).Ok? && d.effectiveAt.Unparsable?
      ==> r == Err(MalformedTimestamp(d.effectiveAt.text))
    ensures d.id > 0 && d.projectId > 0 && Statuses.FromStr(d.status).Ok? && !d.effectiveAt.Unparsable? && !Names.Acceptable(d.name)
      ==> r == Err(if AllWhitespace(d.name) then NameEmpty(TaskKind) else NameTooLong(TaskKind))
    ensures r.Ok? <==> d.id > 0 && d.projectId > 0 && Statuses.FromStr(d.status).Ok? && !d.effectiveAt.Unparsable? && Names.Acceptable(d.name)
    ensures r.Ok? ==> && r.value.id.value == d.id && r.value.projectId.value == d.projectId
                      && Valid(r.value) && r.value.name == Trim(d.name)
                      && AsStr(r.value.status) == d.status
                      && Ok(r.value.effectiveAt) == (if r.value.IsArchived() then Ok(clock) else Timestamps.Parse(d.effectiveAt))
  {
    var id :- TaskIds.New(d.id);
    var projectId :- ProjectIds.New(d.projectId);
    var status :- Statuses.FromStr(d.status);
    var at :- Timestamps.Parse(d.effectiveAt);
    var t :- NewWithTime(id, projectId, d.name, at);
    Ok(if status.IsArchived() then Archive(t, clock) else t)
  }

  /** A task survives the trip out as a DTO and back with its id, project, name and status;
      an active one keeps its stamp, an archived one is restamped with the clock. */
  lemma RoundTrip(t: Task, clock: int)
    requires Valid(t)
    ensures ToDomain(FromTask(t), clock) == Ok(Reloaded(t, clock))
  {
    Names.StoredRevalidates(TaskKind, t.name);
    Statuses.RoundTrip(t.status);
  }

  /** The other direction: a DTO that converts comes back out with its ids and status, its
      name trimmed, and a timestamp naming the same instant (the clock, when archived). The
      spelling is that of `to_rfc3339`, whatever spelling came in. */
  lemma DtoRoundTrip(d: TaskDto, clock: int)
    requires ToDomain(d, clock).Ok?
    ensures var back := FromTask(ToDomain(d, clock).value);
            && back.id == d.id && back.projectId == d.projectId && back.name == Trim(d.name)
            && back.status == d.status && back.effectiveAt.Offset?
            && Timestamps.Parse(back.effectiveAt)
               == (if Statuses.FromStr(d.status) == Ok(Archived) then Ok(clock) else Timestamps.Parse(d.effectiveAt))
  {
    var t := ToDomain(d, clock).value;
    Statuses.RoundTrip(t.status);
    assert Statuses.FromStr(d.status) == Ok(t.status);
  }

  /** `2024-01-01T00:00:00Z`, the text the conversion is exercised with, converts to an
      active task and comes back out spelled `2024-01-01T00:00:00+00:00`. */
  lemma ZuluInputComesBackAsOffset(clock: int)
    ensures var d := TaskDto(1, 1, "Test Task", "active", Zulu(1704067200));
            && ToDomain(d, clock).Ok? && ToDomain(d, clock).value.IsActive()
            && FromTask(ToDomain(d, clock).value).effectiveAt == Offset(1704067200)
            && FromTask(ToDomain(d, clock).value).effectiveAt != d.effectiveAt
  {
    var d := TaskDto(1, 1, "Test Task", "active", Zulu(1704067200));
    assert Statuses.FromStr("active") == Ok(Active);
    assert !IsWhitespace(d.name[0]);
  }
}
