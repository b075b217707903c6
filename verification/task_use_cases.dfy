/** `TaskUseCasesImpl`: the task commands as transformations of the task repository, with
    the project repository read for the owning project. `clock` stands for `Utc::now()`,
    read once per command. */
module TaskUseCases {
  import opened Base
  import opened Text
  import opened ProjectIds
  import opened TaskIds
  import opened Tasks
  import Names
  import Projects
  import PR = ProjectRepository
  import TR = TaskRepository
  import PMS = ProjectManagementService

  /** `create_task`: the project must exist and be active; then an id is taken and the task
      is built and saved (the counter advances even when the name is then rejected). */
  function CreateTask(projects: PR.Repo, tasks: TR.Repo, projectId: ProjectId, name: string, clock: int): (r: (TR.Repo, Result<Task>))
    ensures PR.FindById(projects, projectId).None? ==> r == (tasks, Err(ProjectNotFound))
    ensures PR.FindById(projects, projectId).Some? && PR.FindById(projects, projectId).value.IsArchived()
      ==> r == (tasks, Err(CannotCreateTaskInArchivedProject))
    ensures r.1.Ok? <==> (
      && PR.FindById(projects, projectId).Some?
      && PR.FindById(projects, projectId).value.IsActive()
      && tasks.counter > 0
      && Names.Acceptable(name))
    ensures r.1.Err? ==> r.0.rows == tasks.rows
    ensures r.1.Ok? ==> r.0.rows == tasks.rows + [r.1.value] && r.0.counter == tasks.counter + 1
    ensures r.1.Ok? ==> r.1.value.id.value == tasks.counter && r.1.value.projectId == projectId
    ensures r.1.Ok? ==> r.1.value.name == Trim(name) && r.1.value.IsActive() && r.1.value.effectiveAt == clock
  {
    match PR.FindById(projects, projectId)
    case None => (tasks, Err(ProjectNotFound))
    case Some(project) =>
      if project.IsArchived() then (tasks, Err(CannotCreateTaskInArchivedProject))
      else
        var (next, id) := TR.NextId(tasks);
        if id.Err? then (next, Err(id.error))
        else
          match Tasks.New(id.value, projectId, name, clock)
          case Err(e) => (next, Err(e))
          case Ok(t) => (TR.Save(next, t), Ok(t))
  }

  /** The optional rename step of `update_task`. */
  function Rename(t: Task, name: Option<string>, clock: int): (r: Result<Task>)
    ensures name.None? ==> r == Ok(t)
    ensures name.Some? ==> r == Tasks.ChangeName(t, name.value, clock)
  {
    match name
    case None => Ok(t)
    case Some(n) => Tasks.ChangeName(t, n, clock)
  }

  /** The optional move step of `update_task`: the target must exist and be active. */
  function Relocate(projects: PR.Repo, t: Task, target: Option<ProjectId>, clock: int): (r: Result<Task>)
    ensures target.None? ==> r == Ok(t)
    ensures target.Some? && PR.FindById(projects, target.value).None? ==> r == Err(TargetProjectNotFound)
    ensures target.Some? && PR.FindById(projects, target.value).Some? && PR.FindById(projects, target.value).value.IsArchived()
      ==> r == Err(CannotMoveToArchivedProject)
    ensures target.Some? && PR.FindById(projects, target.value).Some? && PR.FindById(projects, target.value).value.IsActive()
      ==> r == Ok(Tasks.MoveToProject(t, target.value, clock))
  {
    match target
    case None => Ok(t)
    case Some(pid) =>
      match PR.FindById(projects, pid)
      case None => Err(TargetProjectNotFound)
      case Some(project) =>
        if project.IsArchived() then Err(CannotMoveToArchivedProject)
        else Ok(Tasks.MoveToProject(t, pid, clock))
  }

  /** `update_task`: an active task is renamed and/or moved, and saved once at the end; any
      failure saves nothing. A rename is validated before the target is looked up. */
  function UpdateTask(projects: PR.Repo, tasks: TR.Repo, id: TaskId, name: Option<string>, target: Option<ProjectId>, clock: int): (r: (TR.Repo, Result<Task>))
    ensures TR.FindById(tasks, id).None? ==> r == (tasks, Err(TaskNotFound))
    ensures TR.FindById(tasks, id).Some? && TR.FindById(tasks, id).value.IsArchived()
      ==> r == (tasks, Err(CannotUpdateArchived(TaskKind)))
    ensures r.1.Err? ==> r.0 == tasks
    ensures r.1.Ok? ==> r.0.rows == tasks.rows + [r.1.value]
    ensures r.1.Ok? <==> (
      && TR.FindById(tasks, id).Some?
      && TR.FindById(tasks, id).value.IsActive()
      && (name.Some? ==> Names.Acceptable(name.value))
      && (target.Some? ==> PR.FindById(projects, target.value).Some? && PR.FindById(projects, target.value).value.IsActive()))
    ensures name.Some? && !Names.Acceptable(name.value) && TR.FindById(tasks, id).Some? && TR.FindById(tasks, id).value.IsActive()
      ==> r.1 == Err(if AllWhitespace(name.value) then NameEmpty(TaskKind) else NameTooLong(TaskKind))
    ensures r.1.Ok? ==> r.1.value.id == id && r.1.value.IsActive()
    ensures r.1.Ok? ==> r.1.value.name == (if name.Some? then Trim(name.value) else TR.FindById(tasks, id).value.name)
    ensures r.1.Ok? ==> r.1.value.projectId == (if target.Some? then target.value else TR.FindById(tasks, id).value.projectId)
    ensures r.1.Ok? ==> r.1.value.effectiveAt == (if name.Some? || target.Some? then clock else TR.FindById(tasks, id).value.effectiveAt)
  {
    match TR.FindById(tasks, id)
    case None => (tasks, Err(TaskNotFound))
    case Some(existing) =>
      if existing.IsArchived() then (tasks, Err(CannotUpdateArchived(TaskKind)))
      else
        match Rename(existing, name, clock)
        case Err(e) => (tasks, Err(e))
        case Ok(renamed) =>
          match Relocate(projects, renamed, target, clock)
          case Err(e) => (tasks, Err(e))
          case Ok(moved) => (TR.Save(tasks, moved), Ok(moved))
  }

  /** `move_task_to_project`: `update_task` with a target and no new name. */
  function MoveTaskToProject(projects: PR.Repo, tasks: TR.Repo, id: TaskId, target: ProjectId, clock: int): (r: (TR.Repo, Result<Task>))
    ensures r.1.Ok? <==> (
      && TR.FindById(tasks, id).Some?
      && TR.FindById(tasks, id).value.IsActive()
      && PR.FindById(projects, target).Some?
      && PR.FindById(projects, target).value.IsActive())
    ensures r.1.Err? ==> r.0 == tasks
    ensures r.1.Ok? ==> r.1.value == Tasks.MoveToProject(TR.FindById(tasks, id).value, target, clock)
    ensures r.1.Ok? ==> r.0.rows == tasks.rows + [r.1.value]
  {
    UpdateTask(projects, tasks, id, None, Some(target), clock)
  }

  /** `archive_task`: an active task gets an archived version. */
  function ArchiveTask(tasks: TR.Repo, id: TaskId, clock: int): (r: (TR.Repo, Result<()>))
    ensures TR.FindById(tasks, id).None? ==> r == (tasks, Err(TaskNotFound))
    ensures r.1.Ok? <==> TR.FindById(tasks, id).Some? && TR.FindById(tasks, id).value.IsActive()
    ensures TR.FindById(tasks, id).Some? && TR.FindById(tasks, id).value.IsArchived() ==> r == (tasks, Err(AlreadyArchived(TaskKind)))
    ensures r.1.Ok? ==> r.0.rows == tasks.rows + [Tasks.Archive(TR.FindById(tasks, id).value, clock)]
  {
    match TR.FindById(tasks, id)
    case None => (tasks, Err(TaskNotFound))
    case Some(existing) =>
      if existing.IsArchived() then (tasks, Err(AlreadyArchived(TaskKind)))
      else (TR.Save(tasks, Tasks.Archive(existing, clock)), Ok(()))
  }

  /** `restore_task`: the owning project must exist and be active before the task itself is
      checked for being archived. */
  function RestoreTask(projects: PR.Repo, tasks: TR.Repo, id: TaskId, clock: int): (r: (TR.Repo, Result<Task>))
    ensures TR.FindById(tasks, id).None? ==> r == (tasks, Err(TaskNotFound))
    ensures TR.FindById(tasks, id).Some? && PR.FindById(projects, TR.FindById(tasks, id).value.projectId).None?
      ==> r == (tasks, Err(ProjectNotFound))
    ensures TR.FindById(tasks, id).Some? && PR.FindById(projects, TR.FindById(tasks, id).value.projectId).Some?
      && PR.FindById(projects, TR.FindById(tasks, id).value.projectId).value.IsArchived()
      ==> r == (tasks, Err(CannotRestoreInArchivedProject))
    ensures r.1.Ok? <==> (
      && TR.FindById(tasks, id).Some?
      && TR.FindById(tasks, id).value.IsArchived()
      && PR.FindById(projects, TR.FindById(tasks, id).value.projectId).Some?
      && PR.FindById(projects, TR.FindById(tasks, id).value.projectId).value.IsActive())
    ensures r.1.Err? ==> r.0 == tasks
    ensures r.1.Ok? ==> r.0.rows == tasks.rows + [r.1.value]
    ensures r.1.Ok? ==> r.1.value.IsActive() && r.1.value.id == id && r.1.value.effectiveAt == clock
    ensures r.1.Ok? ==> r.1.value.projectId == TR.FindById(tasks, id).value.projectId && r.1.value.name == TR.FindById(tasks, id).value.name
  {
    match TR.FindById(tasks, id)
    case None => (tasks, Err(TaskNotFound))
    case Some(existing) =>
      match PR.FindById(projects, existing.projectId)
      case None => (tasks, Err(ProjectNotFound))
      case Some(project) =>
        if project.IsArchived() then (tasks, Err(CannotRestoreInArchivedProject))
        else
          match Tasks.Restore(existing, clock)
          case Err(e) => (tasks, Err(e))
          case Ok(t) => (TR.Save(tasks, t), Ok(t))
  }

  /** A version stamped no earlier than every saved version of its task becomes current, and
      the clock stays ahead of the repository. */
  lemma SavedLatestIsCurrent(tasks: TR.Repo, t: Task, clock: int)
    requires PMS.TasksNotAfter(tasks, clock)
    requires t.effectiveAt <= clock
    requires forall q :: q in tasks.rows && q.id == t.id ==> q.effectiveAt <= t.effectiveAt
    ensures TR.FindById(TR.Save(tasks, t), t.id) == Some(t)
    ensures PMS.TasksNotAfter(TR.Save(tasks, t), clock)
  {
    assert TR.Save(tasks, t).rows == tasks.rows + [t];
  }

  /** After a successful update the saved version is the task's current version. */
  lemma UpdateTaskBecomesCurrent(projects: PR.Repo, tasks: TR.Repo, id: TaskId, name: Option<string>, target: Option<ProjectId>, clock: int)
    requires PMS.TasksNotAfter(tasks, clock)
    requires UpdateTask(projects, tasks, id, name, target, clock).1.Ok?
    ensures TR.FindById(UpdateTask(projects, tasks, id, name, target, clock).0, id) == Some(UpdateTask(projects, tasks, id, name, target, clock).1.value)
    ensures PMS.TasksNotAfter(UpdateTask(projects, tasks, id, name, target, clock).0, clock)
  {
    var r := UpdateTask(projects, tasks, id, name, target, clock);
    var existing := TR.FindById(tasks, id).value;
    assert existing in tasks.rows;
    assert r.0 == TR.Save(tasks, r.1.value);
    SavedLatestIsCurrent(tasks, r.1.value, clock);
  }

  /** A moved task is listed under its new project and under no other. */
  lemma MoveTaskListsUnderTarget(projects: PR.Repo, tasks: TR.Repo, id: TaskId, target: ProjectId, other: ProjectId, clock: int)
    requires PMS.TasksNotAfter(tasks, clock)
    requires MoveTaskToProject(projects, tasks, id, target, clock).1.Ok?
    ensures MoveTaskToProject(projects, tasks, id, target, clock).1.value in TR.FindByProjectId(MoveTaskToProject(projects, tasks, id, target, clock).0, target)
    ensures other != target ==>
      forall t :: t in TR.FindByProjectId(MoveTaskToProject(projects, tasks, id, target, clock).0, other) ==> t.id != id
  {
    UpdateTaskBecomesCurrent(projects, tasks, id, None, Some(target), clock);
  }

  /** Archiving an active task and then restoring it gives back the task as it was, active
      and restamped, provided its project is still active. */
  lemma ArchiveThenRestoreTask(projects: PR.Repo, tasks: TR.Repo, id: TaskId, c1: int, c2: int)
    requires PMS.TasksNotAfter(tasks, c1)
    requires c1 <= c2
    requires ArchiveTask(tasks, id, c1).1.Ok?
    requires PR.FindById(projects, TR.FindById(tasks, id).value.projectId).Some?
    requires PR.FindById(projects, TR.FindById(tasks, id).value.projectId).value.IsActive()
    ensures RestoreTask(projects, ArchiveTask(tasks, id, c1).0, id, c2).1 == Ok(TR.FindById(tasks, id).value.(effectiveAt := c2))
  {
    var t := TR.FindById(tasks, id).value;
    assert ArchiveTask(tasks, id, c1).0 == TR.Save(tasks, Tasks.Archive(t, c1));
    SavedLatestIsCurrent(tasks, Tasks.Archive(t, c1), c1);
  }

  /** Creating a task keeps every active task under an active project. */
  lemma CreateTaskKeepsHierarchy(projects: PR.Repo, tasks: TR.Repo, projectId: ProjectId, name: string, clock: int)
    requires PMS.HierarchyValid(projects, tasks)
    requires PMS.TasksNotAfter(tasks, clock)
    ensures PMS.HierarchyValid(projects, CreateTask(projects, tasks, projectId, name, clock).0)
    ensures PMS.TasksNotAfter(CreateTask(projects, tasks, projectId, name, clock).0, clock)
  {
    var r := CreateTask(projects, tasks, projectId, name, clock);
    if r.1.Ok? {
      var next := TR.NextId(tasks).0;
      assert r.0 == TR.Save(next, r.1.value);
      assert PMS.HierarchyValid(projects, next) by {
        assert forall id :: TR.FindById(next, id) == TR.FindById(tasks, id);
      }
      SavedLatestIsCurrent(next, r.1.value, clock);
      SaveKeepsHierarchy(projects, next, r.1.value);
    }
  }

  /** Updating or moving a task keeps every active task under an active project. */
  lemma UpdateTaskKeepsHierarchy(projects: PR.Repo, tasks: TR.Repo, id: TaskId, name: Option<string>, target: Option<ProjectId>, clock: int)
    requires PMS.HierarchyValid(projects, tasks)
    requires PMS.TasksNotAfter(tasks, clock)
    ensures PMS.HierarchyValid(projects, UpdateTask(projects, tasks, id, name, target, clock).0)
  {
    var r := UpdateTask(projects, tasks, id, name, target, clock);
    if r.1.Ok? {
      UpdateTaskBecomesCurrent(projects, tasks, id, name, target, clock);
      var existing := TR.FindById(tasks, id).value;
      assert TR.FindById(tasks, existing.id) == Some(existing);
      forall t: Task | TR.FindById(r.0, t.id) == Some(t) && t.IsActive()
        ensures PR.FindById(projects, t.projectId).Some? && PR.FindById(projects, t.projectId).value.IsActive()
      {
        if t.id != id {
          assert TR.FindById(tasks, t.id) == Some(t);
        }
      }
    }
  }

  /** Archiving a task keeps every active task under an active project. */
  lemma ArchiveTaskKeepsHierarchy(projects: PR.Repo, tasks: TR.Repo, id: TaskId, clock: int)
    requires PMS.HierarchyValid(projects, tasks)
    requires PMS.TasksNotAfter(tasks, clock)
    ensures PMS.HierarchyValid(projects, ArchiveTask(tasks, id, clock).0)
  {
    var r := ArchiveTask(tasks, id, clock);
    if r.1.Ok? {
      var archived := Tasks.Archive(TR.FindById(tasks, id).value, clock);
      assert r.0 == TR.Save(tasks, archived);
      SavedLatestIsCurrent(tasks, archived, clock);
      SaveKeepsHierarchy(projects, tasks, archived);
    }
  }

  /** Saving a version that becomes current keeps every active task under an active project,
      provided the version itself is archived or under an active project. */
  lemma SaveKeepsHierarchy(projects: PR.Repo, tasks: TR.Repo, t: Task)
    requires PMS.HierarchyValid(projects, tasks)
    requires TR.FindById(TR.Save(tasks, t), t.id) == Some(t)
    requires t.IsActive() ==> PR.FindById(projects, t.projectId).Some? && PR.FindById(projects, t.projectId).value.IsActive()
    ensures PMS.HierarchyValid(projects, TR.Save(tasks, t))
  {
    var after := TR.Save(tasks, t);
    forall u: Task | TR.FindById(after, u.id) == Some(u) && u.IsActive()
      ensures PR.FindById(projects, u.projectId).Some? && PR.FindById(projects, u.projectId).value.IsActive()
    {
      if u.id != t.id {
        assert TR.FindById(tasks, u.id) == Some(u);
      }
    }
  }

  /** Restoring a task keeps every active task under an active project. */
  lemma RestoreTaskKeepsHierarchy(projects: PR.Repo, tasks: TR.Repo, id: TaskId, clock: int)
    requires PMS.HierarchyValid(projects, tasks)
    requires PMS.TasksNotAfter(tasks, clock)
    ensures PMS.HierarchyValid(projects, RestoreTask(projects, tasks, id, clock).0)
  {
    var r := RestoreTask(projects, tasks, id, clock);
    if r.1.Ok? {
      var restored := r.1.value;
      var owner := TR.FindById(tasks, id).value.projectId;
      assert r.0 == TR.Save(tasks, restored);
      SavedLatestIsCurrent(tasks, restored, clock);
      assert PR.FindById(projects, owner).Some? && PR.FindById(projects, owner).value.IsActive();
      forall t: Task | TR.FindById(r.0, t.id) == Some(t) && t.IsActive()
        ensures PR.FindById(projects, t.projectId).Some? && PR.FindById(projects, t.projectId).value.IsActive()
      {
        if t.id != id {
          assert TR.FindById(tasks, t.id) == Some(t);
        } else {
          assert t == restored;
        }
      }
    }
  }
}
