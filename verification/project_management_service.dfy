/** `ProjectManagementServiceImpl`: the rules that tie projects to their tasks, over the
    in-memory project and task repositories. `clock` stands for `Utc::now()`, read once per
    call. */
module ProjectManagementService {
  import opened Base
  import opened ProjectIds
  import opened TaskIds
  import opened Projects
  import opened Tasks
  import Seqs
  import PR = ProjectRepository
  import TR = TaskRepository

  /** `can_archive_project`: no task currently in the project is active. */
  function CanArchiveProject(tasks: TR.Repo, id: ProjectId): (b: bool)
    ensures b <==> forall t: Task :: TR.FindById(tasks, t.id) == Some(t) && t.projectId == id ==> !t.IsActive()
  {
    var active := TR.FindActiveByProjectId(tasks, id);
    assert |active| > 0 ==> active[0] in active;
    |active| == 0
  }

  /** `validate_project_hierarchy`: the project must have been saved, and an archived project
      may not have active tasks; the error reports how many it has. */
  function ValidateProjectHierarchy(projects: PR.Repo, tasks: TR.Repo, p: Project): (r: Result<()>)
    ensures r.Ok? <==> PR.Exists(projects, p.id) && (p.IsArchived() ==> CanArchiveProject(tasks, p.id))
    ensures !PR.Exists(projects, p.id) ==> r == Err(ProjectDoesNotExist)
    ensures PR.Exists(projects, p.id) && r.Err? ==> r.error == ArchivedProjectHasActiveTasks(|TR.FindActiveByProjectId(tasks, p.id)|)
  {
    if !PR.Exists(projects, p.id) then Err(ProjectDoesNotExist)
    else if p.IsArchived() && |TR.FindActiveByProjectId(tasks, p.id)| > 0 then
      Err(ArchivedProjectHasActiveTasks(|TR.FindActiveByProjectId(tasks, p.id)|))
    else Ok(())
  }

  /** `is_project_name_unique`: no current project has the name, except the excluded one. */
  function IsProjectNameUnique(projects: PR.Repo, name: string, exclude: Option<ProjectId>): (b: bool)
    ensures b <==> forall p: Project :: PR.FindById(projects, p.id) == Some(p) && p.name == name ==> exclude == Some(p.id)
  {
    var all := PR.FindAll(projects);
    Seqs.FindFirst(all, (p: Project) => p.name == name && exclude != Some(p.id)).None?
  }

  /** Every version in the task repository is stamped no later than `clock`. */
  predicate TasksNotAfter(tasks: TR.Repo, clock: int) {
    forall i :: 0 <= i < |tasks.rows| ==> tasks.rows[i].effectiveAt <= clock
  }

  /** Every version in the project repository is stamped no later than `clock`. */
  predicate ProjectsNotAfter(projects: PR.Repo, clock: int) {
    forall i :: 0 <= i < |projects.rows| ==> projects.rows[i].effectiveAt <= clock
  }

  /** The loop of `archive_project_with_tasks`: saves an archived version of each task. */
  function ArchiveEach(tasks: TR.Repo, ts: seq<Task>, clock: int): (r: TR.Repo)
    ensures r.counter == tasks.counter
    decreases |ts|
  {
    if |ts| == 0 then tasks else ArchiveEach(TR.Save(tasks, Tasks.Archive(ts[0], clock)), ts[1..], clock)
  }

  /** `after` is `before` followed by the archived copy of each listed task, in list order. */
  predicate AppendsArchived(before: seq<Task>, after: seq<Task>, ts: seq<Task>, clock: int) {
    && |after| == |before| + |ts| && after[..|before|] == before
    && forall i :: 0 <= i < |ts| ==> after[|before| + i] == Tasks.Archive(ts[i], clock)
  }

  /** The loop saves exactly one archived version per listed task, in list order, after the
      versions already saved, and nothing else. */
  lemma {:induction false} ArchiveEachAppends(tasks: TR.Repo, ts: seq<Task>, clock: int)
    ensures AppendsArchived(tasks.rows, ArchiveEach(tasks, ts, clock).rows, ts, clock)
    decreases |ts|
  {
    if |ts| > 0 {
      var next := TR.Save(tasks, Tasks.Archive(ts[0], clock));
      assert next.rows == tasks.rows + [Tasks.Archive(ts[0], clock)];
      ArchiveEachAppends(next, ts[1..], clock);
      var r := ArchiveEach(next, ts[1..], clock);
      assert ArchiveEach(tasks, ts, clock) == r;
      ArchiveEachShift(tasks.rows, next.rows, ts, clock, r.rows);
    }
  }

  /** The saves after the first one land after it. */
  lemma ArchiveEachShift(a: seq<Task>, next: seq<Task>, ts: seq<Task>, clock: int, r: seq<Task>)
    requires |ts| > 0 && next == a + [Tasks.Archive(ts[0], clock)]
    requires AppendsArchived(next, r, ts[1..], clock)
    ensures AppendsArchived(a, r, ts, clock)
  {
    assert r[..|a|] == r[..|next|][..|a|];
    forall i | 0 <= i < |ts|
      ensures r[|a| + i] == Tasks.Archive(ts[i], clock)
    {
      if i == 0 {
        assert r[|a|] == r[..|next|][|a|];
      } else {
        assert r[|next| + (i - 1)] == Tasks.Archive(ts[1..][i - 1], clock);
      }
    }
  }

  /** Archiving a list of tasks leaves the current version of every unlisted task alone. */
  lemma {:induction false} ArchiveEachUnlisted(tasks: TR.Repo, ts: seq<Task>, clock: int, id: TaskId)
    requires forall i :: 0 <= i < |ts| ==> ts[i].id != id
    ensures TR.FindById(ArchiveEach(tasks, ts, clock), id) == TR.FindById(tasks, id)
    decreases |ts|
  {
    if |ts| > 0 {
      var next := TR.Save(tasks, Tasks.Archive(ts[0], clock));
      assert TR.FindById(next, id) == TR.FindById(tasks, id);
      ArchiveEachUnlisted(next, ts[1..], clock, id);
    }
  }

  /** A version saved at a clock no saved version is ahead of becomes current. */
  lemma SavedAtClockIsCurrent(tasks: TR.Repo, t: Task, clock: int)
    requires TasksNotAfter(tasks, clock) && t.effectiveAt == clock
    ensures TR.FindById(TR.Save(tasks, t), t.id) == Some(t)
  {
    forall q | q in tasks.rows && q.id == t.id
      ensures q.effectiveAt <= t.effectiveAt
    {
      var i :| 0 <= i < |tasks.rows| && tasks.rows[i] == q;
    }
  }

  /** When the clock is not behind any saved version, every listed task's current version
      becomes its archived copy. */
  lemma {:induction false} ArchiveEachListed(tasks: TR.Repo, ts: seq<Task>, clock: int, k: nat)
    requires TasksNotAfter(tasks, clock)
    requires forall i, j :: 0 <= i < j < |ts| ==> ts[i].id != ts[j].id
    requires k < |ts|
    ensures TR.FindById(ArchiveEach(tasks, ts, clock), ts[k].id) == Some(Tasks.Archive(ts[k], clock))
    decreases |ts|
  {
    if k == 0 {
      ArchiveEachFirst(tasks, ts, clock);
    } else {
      var next := TR.Save(tasks, Tasks.Archive(ts[0], clock));
      var rest := ts[1..];
      assert forall i :: 0 <= i < |rest| ==> rest[i] == ts[i + 1];
      assert TasksNotAfter(next, clock) by {
        assert next.rows == tasks.rows + [Tasks.Archive(ts[0], clock)];
      }
      ArchiveEachListed(next, rest, clock, k - 1);
      assert rest[k - 1] == ts[k];
    }
  }

  /** The first listed task ends archived: no later task of the list shares its id. */
  lemma ArchiveEachFirst(tasks: TR.Repo, ts: seq<Task>, clock: int)
    requires TasksNotAfter(tasks, clock)
    requires forall i, j :: 0 <= i < j < |ts| ==> ts[i].id != ts[j].id
    requires |ts| > 0
    ensures TR.FindById(ArchiveEach(tasks, ts, clock), ts[0].id) == Some(Tasks.Archive(ts[0], clock))
  {
    var archived := Tasks.Archive(ts[0], clock);
    var next := TR.Save(tasks, archived);
    var rest := ts[1..];
    forall i | 0 <= i < |rest|
      ensures rest[i].id != ts[0].id
    {
      assert rest[i] == ts[i + 1];
    }
    SavedAtClockIsCurrent(tasks, archived, clock);
    ArchiveEachUnlisted(next, rest, clock, ts[0].id);
  }

  /** `archive_project_with_tasks`: archives every active task of an active project, then
      the project. */
  function ArchiveProjectWithTasks(projects: PR.Repo, tasks: TR.Repo, id: ProjectId, clock: int): (r: (PR.Repo, TR.Repo, Result<()>))
    ensures PR.FindById(projects, id).None? ==> r == (projects, tasks, Err(ProjectNotFound))
    ensures PR.FindById(projects, id).Some? && PR.FindById(projects, id).value.IsArchived()
      ==> r == (projects, tasks, Err(AlreadyArchived(ProjectKind)))
    ensures r.2.Ok? <==> PR.FindById(projects, id).Some? && PR.FindById(projects, id).value.IsActive()
  {
    match PR.FindById(projects, id)
    case None => (projects, tasks, Err(ProjectNotFound))
    case Some(p) =>
      if p.IsArchived() then (projects, tasks, Err(AlreadyArchived(ProjectKind)))
      else
        var tasks2 := ArchiveEach(tasks, TR.FindActiveByProjectId(tasks, id), clock);
        (PR.Save(projects, Projects.Archive(p, clock)), tasks2, Ok(()))
  }

  /** After archiving a project with its tasks at a clock not behind any saved version, the
      project is archived, none of its tasks is active, the hierarchy check passes, and
      tasks of other projects are untouched. */
  lemma ArchiveProjectWithTasksEffect(projects: PR.Repo, tasks: TR.Repo, id: ProjectId, clock: int)
    requires ArchiveProjectWithTasks(projects, tasks, id, clock).2.Ok?
    requires ProjectsNotAfter(projects, clock)
    requires TasksNotAfter(tasks, clock)
    ensures PR.FindById(ArchiveProjectWithTasks(projects, tasks, id, clock).0, id).value.IsArchived()
    ensures CanArchiveProject(ArchiveProjectWithTasks(projects, tasks, id, clock).1, id)
    ensures ValidateProjectHierarchy(ArchiveProjectWithTasks(projects, tasks, id, clock).0,
                                     ArchiveProjectWithTasks(projects, tasks, id, clock).1,
                                     PR.FindById(ArchiveProjectWithTasks(projects, tasks, id, clock).0, id).value).Ok?
    ensures forall t: Task :: TR.FindById(tasks, t.id) == Some(t) && t.projectId != id ==>
      TR.FindById(ArchiveProjectWithTasks(projects, tasks, id, clock).1, t.id) == Some(t)
    ensures forall t: Task :: TR.FindById(ArchiveProjectWithTasks(projects, tasks, id, clock).1, t.id) == Some(t) && t.IsActive() ==>
      TR.FindById(tasks, t.id) == Some(t) && t.projectId != id
    ensures forall other :: other != id ==>
      PR.FindById(ArchiveProjectWithTasks(projects, tasks, id, clock).0, other) == PR.FindById(projects, other)
  {
    var p := PR.FindById(projects, id).value;
    var active := TR.FindActiveByProjectId(tasks, id);
    var tasks2 := ArchiveEach(tasks, active, clock);
    var projects2 := PR.Save(projects, Projects.Archive(p, clock));
    assert PR.FindById(projects2, id) == Some(Projects.Archive(p, clock));
    forall t: Task | TR.FindById(tasks2, t.id) == Some(t) && t.IsActive()
      ensures TR.FindById(tasks, t.id) == Some(t) && t.projectId != id
    {
      if k :| 0 <= k < |active| && active[k].id == t.id {
        ArchiveEachListed(tasks, active, clock, k);
      } else {
        ArchiveEachUnlisted(tasks, active, clock, t.id);
        assert t.projectId == id ==> t in active;
      }
    }
    forall t: Task | TR.FindById(tasks, t.id) == Some(t) && t.projectId != id
      ensures TR.FindById(tasks2, t.id) == Some(t)
    {
      forall i | 0 <= i < |active|
        ensures active[i].id != t.id
      {
        assert active[i] in active;
      }
      ArchiveEachUnlisted(tasks, active, clock, t.id);
    }
  }

  /** The state the project and task rules keep: every active task's current project exists
      and is active. */
  ghost predicate HierarchyValid(projects: PR.Repo, tasks: TR.Repo) {
    forall t: Task :: TR.FindById(tasks, t.id) == Some(t) && t.IsActive() ==>
      PR.FindById(projects, t.projectId).Some? && PR.FindById(projects, t.projectId).value.IsActive()
  }

  /** In such a state `validate_project_hierarchy` accepts every saved project, and an
      archived project can always be archived again. */
  lemma HierarchyValidPasses(projects: PR.Repo, tasks: TR.Repo, p: Project)
    requires HierarchyValid(projects, tasks)
    requires PR.FindById(projects, p.id) == Some(p)
    ensures p.IsArchived() ==> CanArchiveProject(tasks, p.id)
    ensures ValidateProjectHierarchy(projects, tasks, p).Ok?
  {
  }
}
