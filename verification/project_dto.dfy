/** `ProjectDto`: the flat record a project crosses the application boundary as, and its
    conversion back into a domain entity. `clock` stands for the `Utc::now()` that
    `archive()` reads while rebuilding an archived project. */
module ProjectDtos {
  import opened Base
  import opened Text
  import opened Statuses
  import opened ProjectIds
  import opened Projects
  import opened Timestamps
  import Names

  datatype ProjectDto = ProjectDto(id: int, name: string, status: string, effectiveAt: Stamp)

  /** `From<Project> for ProjectDto`: every field copied, the status as its storage string. */
  function FromProject(p: Project): (d: ProjectDto)
    ensures ProjectIds.New(d.id) == Ok(p.id)
    ensures Statuses.FromStr(d.status) == Ok(p.status)
    ensures d.name == p.name
    ensures Timestamps.Parse(d.effectiveAt) == Ok(p.effectiveAt) && d.effectiveAt.Offset?
  {
    Statuses.RoundTrip(p.status);
    ProjectDto(ProjectIds.ToInt(p.id), p.name, AsStr(p.status), ToRfc3339(p.effectiveAt))
  }

  /** `ProjectDto::to_domain`: the id, then the status, then the timestamp are checked in
      that order; the name goes through `new_with_time`, and an archived status is applied
      with `archive()`, which restamps the project with the clock. */
  function ToDomain(d: ProjectDto, clock: int): (r: Result<Project>)
    ensures d.id <= 0 ==> r == Err(IdNotPositive(ProjectKind))
    ensures d.id > 0 && Statuses.FromStr(d.status).Err? ==> r == Err(InvalidStatus(d.status))
    ensures d.id > 0 && Statuses.FromStr(d.status).Ok? && d.effectiveAt.Unparsable?
      ==> r == Err(MalformedTimestamp(d.effectiveAt.text))
    ensures d.id > 0 && Statuses.FromStr(d.status).Ok? && !d.effectiveAt.Unparsable? && !Names.Acceptable(d.name)
      ==> r == Err(if AllWhitespace(d.name) then NameEmpty(ProjectKind) else NameTooLong(ProjectKind))
    ensures r.Ok? <==> d.id > 0 && Statuses.FromStr(d.status).Ok? && !d.effectiveAt.Unparsable? && Names.Acceptable(d.name)
    ensures r.Ok? ==> && r.value.id.value == d.id
                      && Valid(r.value) && r.value.name == Trim(d.name)
                      && AsStr(r.value.status) == d.status
                      && Ok(r.value.effectiveAt) == (if r.value.IsArchived() then Ok(clock) else Timestamps.Parse(d.effectiveAt))
  {
    var id :- ProjectIds.New(d.id);
    var status :- Statuses.FromStr(d.status);
    var at :- Timestamps.Parse(d.effectiveAt);
    var p :- NewWithTime(id, d.name, at);
    Ok(if status.IsArchived() then Archive(p, clock) else p)
  }

  /** A project survives the trip out as a DTO and back with its id, name and status; an
      active one keeps its stamp, an archived one is restamped with the clock. */
  lemma RoundTrip(p: Project, clock: int)
    requires Valid(p)
    ensures ToDomain(FromProject(p), clock) == Ok(Reloaded(p, clock))
  {
    Names.StoredRevalidates(ProjectKind, p.name);
    Statuses.RoundTrip(p.status);
  }

  /** The other direction: a DTO that converts comes back out with its id and status, its
      name trimmed, and a timestamp naming the same instant (the clock, when archived). The
      spelling is that of `to_rfc3339`, whatever spelling came in. */
  lemma DtoRoundTrip(d: ProjectDto, clock: int)
    requires ToDomain(d, clock).Ok?
    ensures var back := FromProject(ToDomain(d, clock).value);
            && back.id == d.id && back.name == Trim(d.name) && back.status == d.status
            && back.effectiveAt.Offset?
            && Timestamps.Parse(back.effectiveAt)
               == (if Statuses.FromStr(d.status) == Ok(Archived) then Ok(clock) else Timestamps.Parse(d.effectiveAt))
  {
    var p := ToDomain(d, clock).value;
    Statuses.RoundTrip(p.status);
    assert Statuses.FromStr(d.status) == Ok(p.status);
  }

  /** `2024-01-01T00:00:00Z`, the text the conversion is exercised with, converts to an
      active project and comes back out spelled `2024-01-01T00:00:00+00:00`: the same
      instant, other text. */
  lemma ZuluInputComesBackAsOffset(clock: int)
    ensures var d := ProjectDto(1, "Test Project", "active", Zulu(1704067200));
            && ToDomain(d, clock).Ok? && ToDomain(d, clock).value.IsActive()
            && FromProject(ToDomain(d, clock).value).effectiveAt == Offset(1704067200)
            && FromProject(ToDomain(d, clock).value).effectiveAt != d.effectiveAt
  {
    var d := ProjectDto(1, "Test Project", "active", Zulu(1704067200));
    assert Statuses.FromStr("active") == Ok(Active);
    assert !IsWhitespace(d.name[0]);
  }
}
