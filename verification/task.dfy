/** The `Task` entity: an immutable version record belonging to a project. Every change
    yields a new version stamped with the clock; `clock` stands for `Utc::now()`. */
module Tasks {
  import opened Base
  import opened Text
  import opened Statuses
  import opened ProjectIds
  import opened TaskIds
  import Names

  datatype Task = Task(id: TaskId, projectId: ProjectId, name: string, status: Status, effectiveAt: int) {
    predicate IsActive() {
      status.IsActive()
    }

    predicate IsArchived() {
      status.IsArchived()
    }
  }

  /** What every constructor and transition guarantees about a task. */
  predicate Valid(t: Task) {
    Names.Stored(t.name)
  }

  /** `Task::new_with_time`: a new active task with the given stamp. */
  function NewWithTime(id: TaskId, projectId: ProjectId, name: string, effectiveAt: int): (r: Result<Task>)
    ensures r.Ok? <==> Names.Acceptable(name)
    ensures r.Err? ==> r.error == (if AllWhitespace(name) then NameEmpty(TaskKind) else NameTooLong(TaskKind))
    ensures r.Ok? ==> Valid(r.value) && IsTrimmingOf(r.value.name, name) && r.value.name == Trim(name)
    ensures r.Ok? ==> r.value.id == id && r.value.projectId == projectId
    ensures r.Ok? ==> r.value.IsActive() && r.value.effectiveAt == effectiveAt
  {
    var n :- Names.Validate(TaskKind, name);
    Ok(Task(id, projectId, n, Active, effectiveAt))
  }

  /** `Task::new`: as `new_with_time`, stamped with the clock. */
  function New(id: TaskId, projectId: ProjectId, name: string, clock: int): (r: Result<Task>)
    ensures r.Ok? <==> Names.Acceptable(name)
    ensures r.Err? ==> r.error == (if AllWhitespace(name) then NameEmpty(TaskKind) else NameTooLong(TaskKind))
    ensures r.Ok? ==> Valid(r.value) && r.value.name == Trim(name)
    ensures r.Ok? ==> r.value.id == id && r.value.projectId == projectId
    ensures r.Ok? ==> r.value.IsActive() && r.value.effectiveAt == clock
  {
    var n :- Names.Validate(TaskKind, name);
    Ok(Task(id, projectId, n, Active, clock))
  }

  /** `Task::change_name`: same id, project and status; new trimmed name and stamp. */
  function ChangeName(t: Task, newName: string, clock: int): (r: Result<Task>)
    ensures r.Ok? <==> Names.Acceptable(newName)
    ensures r.Err? ==> r.error == (if AllWhitespace(newName) then NameEmpty(TaskKind) else NameTooLong(TaskKind))
    ensures r.Ok? ==> Valid(r.value) && r.value.name == Trim(newName)
    ensures r.Ok? ==> r.value.id == t.id && r.value.projectId == t.projectId
    ensures r.Ok? ==> r.value.status == t.status && r.value.effectiveAt == clock
  {
    var n :- Names.Validate(TaskKind, newName);
    Ok(Task(t.id, t.projectId, n, t.status, clock))
  }

  /** `Task::move_to_project`: total; only the owning project and the stamp change. */
  function MoveToProject(t: Task, projectId: ProjectId, clock: int): (r: Task)
    ensures r.projectId == projectId && r.effectiveAt == clock
    ensures r.id == t.id && r.name == t.name && r.status == t.status
    ensures Valid(t) ==> Valid(r)
  {
    Task(t.id, projectId, t.name, t.status, clock)
  }

  /** `Task::archive`: total; only the status and the stamp change. */
  function Archive(t: Task, clock: int): (r: Task)
    ensures r.IsArchived() && r.effectiveAt == clock
    ensures r.id == t.id && r.projectId == t.projectId && r.name == t.name
    ensures Valid(t) ==> Valid(r)
  {
    Task(t.id, t.projectId, t.name, Archived, clock)
  }

  /** `Task::restore`: only an archived task can be restored. */
  function Restore(t: Task, clock: int): (r: Result<Task>)
    ensures r.Ok? <==> t.IsArchived()
    ensures r.Err? ==> r.error == NotArchived(TaskKind)
    ensures r.Ok? ==> r.value.IsActive() && r.value.effectiveAt == clock
    ensures r.Ok? ==> r.value.id == t.id && r.value.projectId == t.projectId && r.value.name == t.name
    ensures r.Ok? && Valid(t) ==> Valid(r.value)
  {
    if !t.IsArchived() then Err(NotArchived(TaskKind))
    else Ok(Task(t.id, t.projectId, t.name, Active, clock))
  }

  /** `Task::belongs_to_project`. */
  predicate BelongsToProject(t: Task, projectId: ProjectId) {
    t.projectId == projectId
  }

  /** After a move the task belongs to the target project and to no other. */
  lemma MoveBelongs(t: Task, target: ProjectId, other: ProjectId, clock: int)
    ensures BelongsToProject(MoveToProject(t, target, clock), target)
    ensures other != target ==> !BelongsToProject(MoveToProject(t, target, clock), other)
  {
  }

  /** Restoring an archived task gives back the task as it was, active, restamped. */
  lemma RestoreUndoesArchive(t: Task, c1: int, c2: int)
    requires t.IsActive()
    ensures Restore(Archive(t, c1), c2) == Ok(t.(effectiveAt := c2))
  {
  }

  /** A task is active or archived, never both. */
  lemma ExactlyOneStatus(t: Task)
    ensures t.IsActive() != t.IsArchived()
  {
  }

  /** What rebuilding a stored version yields: `new_with_time` gives it back active with its
      own stamp, and `archive()` then restamps an archived one with the clock. */
  function Reloaded(t: Task, clock: int): (r: Task)
    ensures r.id == t.id && r.projectId == t.projectId && r.name == t.name && r.status == t.status
    ensures r.IsActive() ==> r == t
    ensures r.IsArchived() ==> r == t.(effectiveAt := clock)
    ensures clock == t.effectiveAt ==> r == t
  {
    if t.IsArchived() then t.(effectiveAt := clock) else t
  }
}
