/** The `Project` entity: an immutable version record. Every change yields a new version
    stamped with the clock; `clock` stands for `Utc::now()`. */
module Projects {
  import opened Base
  import opened Text
  import opened Statuses
  import opened ProjectIds
  import Names

  datatype Project = Project(id: ProjectId, name: string, status: Status, effectiveAt: int) {
    predicate IsActive() {
      status.IsActive()
    }

    predicate IsArchived() {
      status.IsArchived()
    }
  }

  /** What every constructor and transition guarantees about a project. */
  predicate Valid(p: Project) {
    Names.Stored(p.name)
  }

  /** `Project::new_with_time`: a new active project with the given stamp. */
  function NewWithTime(id: ProjectId, name: string, effectiveAt: int): (r: Result<Project>)
    ensures r.Ok? <==> Names.Acceptable(name)
    ensures r.Err? ==> r.error == (if AllWhitespace(name) then NameEmpty(ProjectKind) else NameTooLong(ProjectKind))
    ensures r.Ok? ==> Valid(r.value) && IsTrimmingOf(r.value.name, name) && r.value.name == Trim(name)
    ensures r.Ok? ==> r.value.id == id && r.value.IsActive() && r.value.effectiveAt == effectiveAt
  {
    var n :- Names.Validate(ProjectKind, name);
    Ok(Project(id, n, Active, effectiveAt))
  }

  /** `Project::new`: as `new_with_time`, stamped with the clock. */
  function New(id: ProjectId, name: string, clock: int): (r: Result<Project>)
    ensures r.Ok? <==> Names.Acceptable(name)
    ensures r.Err? ==> r.error == (if AllWhitespace(name) then NameEmpty(ProjectKind) else NameTooLong(ProjectKind))
    ensures r.Ok? ==> Valid(r.value) && r.value.name == Trim(name)
    ensures r.Ok? ==> r.value.id == id && r.value.IsActive() && r.value.effectiveAt == clock
  {
    var n :- Names.Validate(ProjectKind, name);
    Ok(Project(id, n, Active, clock))
  }

  /** `Project::change_name`: same id and status, new trimmed name, new stamp. */
  function ChangeName(p: Project, newName: string, clock: int): (r: Result<Project>)
    ensures r.Ok? <==> Names.Acceptable(newName)
    ensures r.Err? ==> r.error == (if AllWhitespace(newName) then NameEmpty(ProjectKind) else NameTooLong(ProjectKind))
    ensures r.Ok? ==> Valid(r.value) && r.value.name == Trim(newName)
    ensures r.Ok? ==> r.value.id == p.id && r.value.status == p.status && r.value.effectiveAt == clock
  {
    var n :- Names.Validate(ProjectKind, newName);
    Ok(Project(p.id, n, p.status, clock))
  }

  /** `Project::archive`: total; only the status and the stamp change. */
  function Archive(p: Project, clock: int): (r: Project)
    ensures r.IsArchived() && r.effectiveAt == clock
    ensures r.id == p.id && r.name == p.name
    ensures Valid(p) ==> Valid(r)
  {
    Project(p.id, p.name, Archived, clock)
  }

  /** `Project::restore`: only an archived project can be restored. */
  function Restore(p: Project, clock: int): (r: Result<Project>)
    ensures r.Ok? <==> p.IsArchived()
    ensures r.Err? ==> r.error == NotArchived(ProjectKind)
    ensures r.Ok? ==> r.value.IsActive() && r.value.effectiveAt == clock
    ensures r.Ok? ==> r.value.id == p.id && r.value.name == p.name
    ensures r.Ok? && Valid(p) ==> Valid(r.value)
  {
    if !p.IsArchived() then Err(NotArchived(ProjectKind))
    else Ok(Project(p.id, p.name, Active, clock))
  }

  /** Restoring an archived project gives back the project as it was, active, restamped. */
  lemma RestoreUndoesArchive(p: Project, c1: int, c2: int)
    requires p.IsActive()
    ensures Restore(Archive(p, c1), c2) == Ok(p.(effectiveAt := c2))
  {
  }

  /** Archiving twice is archiving once, up to the stamp. */
  lemma ArchiveIdempotent(p: Project, c1: int, c2: int)
    ensures Archive(Archive(p, c1), c2) == Archive(p, c2)
  {
  }

  /** A project is active or archived, never both. */
  lemma ExactlyOneStatus(p: Project)
    ensures p.IsActive() != p.IsArchived()
  {
  }

  /** What rebuilding a stored version yields: `new_with_time` gives it back active with its
      own stamp, and `archive()` then restamps an archived one with the clock. */
  function Reloaded(p: Project, clock: int): (r: Project)
    ensures r.id == p.id && r.name == p.name && r.status == p.status
    ensures r.IsActive() ==> r == p
    ensures r.IsArchived() ==> r == p.(effectiveAt := clock)
    ensures clock == p.effectiveAt ==> r == p
  {
    if p.IsArchived() then p.(effectiveAt := clock) else p
  }
}
