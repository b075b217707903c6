/** `ProjectUseCasesImpl`: the project commands as transformations of the project and task
    repositories. `clock` stands for `Utc::now()`, read once per command. */
module ProjectUseCases {
  import opened Base
  import opened Text
  import opened Statuses
  import opened ProjectIds
  import opened Projects
  import Names
  import Tasks
  import PR = ProjectRepository
  import TR = TaskRepository
  import PMS = ProjectManagementService

  /** No two projects currently share a name: the rule the name checks exist to keep. */
  ghost predicate NamesDistinct(projects: PR.Repo) {
    forall p: Project, q: Project ::
      PR.FindById(projects, p.id) == Some(p) && PR.FindById(projects, q.id) == Some(q) && p.name == q.name ==> p.id == q.id
  }

  /** `create_project` with the uniqueness check made on `checked`: check the name, take
      an id (the counter advances even when the name is then rejected), build the project,
      save it. */
  function CreateChecking(projects: PR.Repo, name: string, checked: string, clock: int): (r: (PR.Repo, Result<Project>))
    ensures !PMS.IsProjectNameUnique(projects, checked, None) ==> r == (projects, Err(NameAlreadyExists(name)))
    ensures r.1.Ok? <==> PMS.IsProjectNameUnique(projects, checked, None) && projects.counter > 0 && Names.Acceptable(name)
    ensures PMS.IsProjectNameUnique(projects, checked, None) ==> r.0.counter == projects.counter + 1
    ensures r.1.Err? ==> r.0.rows == projects.rows
    ensures r.1.Ok? ==> r.0.rows == projects.rows + [r.1.value]
    ensures r.1.Ok? ==> r.1.value.id.value == projects.counter && r.1.value.name == Trim(name)
    ensures r.1.Ok? ==> r.1.value.IsActive() && r.1.value.effectiveAt == clock
  {
    if !PMS.IsProjectNameUnique(projects, checked, None) then (projects, Err(NameAlreadyExists(name)))
    else
      var (next, id) := PR.NextId(projects);
      if id.Err? then (next, Err(id.error))
      else
        match Projects.New(id.value, name, clock)
        case Err(e) => (next, Err(e))
        case Ok(p) => (PR.Save(next, p), Ok(p))
  }

  /** `create_project` as written: uniqueness is checked on the name as typed, while the
      trimmed name is what gets stored. */
  function CreateProjectRawCheck(projects: PR.Repo, name: string, clock: int): (r: (PR.Repo, Result<Project>))
    ensures r.1.Ok? <==> PMS.IsProjectNameUnique(projects, name, None) && projects.counter > 0 && Names.Acceptable(name)
    ensures r.1.Ok? ==> r.0.rows == projects.rows + [r.1.value] && r.1.value.name == Trim(name)
  {
    CreateChecking(projects, name, name, clock)
  }

  /** `create_project` with the check made on the name that will be stored. */
  function CreateProject(projects: PR.Repo, name: string, clock: int): (r: (PR.Repo, Result<Project>))
    ensures r.1.Ok? <==> PMS.IsProjectNameUnique(projects, Trim(name), None) && projects.counter > 0 && Names.Acceptable(name)
    ensures !PMS.IsProjectNameUnique(projects, Trim(name), None) ==> r == (projects, Err(NameAlreadyExists(name)))
    ensures r.1.Ok? ==> r.0.rows == projects.rows + [r.1.value] && r.1.value.name == Trim(name)
  {
    CreateChecking(projects, name, Trim(name), clock)
  }

  /** `update_project` with the uniqueness check made on `checked`, and skipped when the
      current name already equals it. */
  function UpdateChecking(projects: PR.Repo, id: ProjectId, name: string, checked: string, clock: int): (r: (PR.Repo, Result<Project>))
    ensures PR.FindById(projects, id).None? ==> r == (projects, Err(ProjectNotFound))
    ensures PR.FindById(projects, id).Some? && PR.FindById(projects, id).value.IsArchived()
      ==> r == (projects, Err(CannotUpdateArchived(ProjectKind)))
    ensures r.1.Ok? <==> (
      && PR.FindById(projects, id).Some?
      && PR.FindById(projects, id).value.IsActive()
      && (PR.FindById(projects, id).value.name == checked || PMS.IsProjectNameUnique(projects, checked, Some(id)))
      && Names.Acceptable(name))
    ensures r.1.Err? ==> r.0 == projects
    ensures r.1.Ok? ==> r.0.rows == projects.rows + [r.1.value]
    ensures r.1.Ok? ==> r.1.value.id == id && r.1.value.name == Trim(name) && r.1.value.IsActive() && r.1.value.effectiveAt == clock
  {
    match PR.FindById(projects, id)
    case None => (projects, Err(ProjectNotFound))
    case Some(existing) =>
      if existing.IsArchived() then (projects, Err(CannotUpdateArchived(ProjectKind)))
      else if existing.name != checked && !PMS.IsProjectNameUnique(projects, checked, Some(id)) then
        (projects, Err(NameAlreadyExists(name)))
      else
        match Projects.ChangeName(existing, name, clock)
        case Err(e) => (projects, Err(e))
        case Ok(u) => (PR.Save(projects, u), Ok(u))
  }

  /** `update_project` as written: the check compares and searches the name as typed. */
  function UpdateProjectRawCheck(projects: PR.Repo, id: ProjectId, name: string, clock: int): (r: (PR.Repo, Result<Project>))
    ensures r.1.Ok? ==> PR.FindById(projects, id).Some? && PR.FindById(projects, id).value.IsActive()
    ensures r.1.Ok? && PR.FindById(projects, id).Some? ==> PR.FindById(projects, id).value.name == name || PMS.IsProjectNameUnique(projects, name, Some(id))
    ensures r.1.Ok? ==> r.0.rows == projects.rows + [r.1.value] && r.1.value.name == Trim(name)
  {
    UpdateChecking(projects, id, name, name, clock)
  }

  /** `update_project` with the check made on the name that will be stored. */
  function UpdateProject(projects: PR.Repo, id: ProjectId, name: string, clock: int): (r: (PR.Repo, Result<Project>))
    ensures r.1.Ok? ==> PR.FindById(projects, id).Some? && PR.FindById(projects, id).value.IsActive()
    ensures r.1.Ok? && PR.FindById(projects, id).Some? ==> PR.FindById(projects, id).value.name == Trim(name) || PMS.IsProjectNameUnique(projects, Trim(name), Some(id))
    ensures r.1.Ok? ==> r.0.rows == projects.rows + [r.1.value] && r.1.value.name == Trim(name)
    ensures r.1.Err? ==> r.0 == projects
  {
    UpdateChecking(projects, id, name, Trim(name), clock)
  }

  /** `archive_project`: an active project is archived, with its active tasks when `force`
      is set; otherwise only when it has none. */
  function ArchiveProject(projects: PR.Repo, tasks: TR.Repo, id: ProjectId, force: bool, clock: int): (r: (PR.Repo, TR.Repo, Result<()>))
    ensures PR.FindById(projects, id).None? ==> r == (projects, tasks, Err(ProjectNotFound))
    ensures PR.FindById(projects, id).Some? && PR.FindById(projects, id).value.IsArchived()
      ==> r == (projects, tasks, Err(AlreadyArchived(ProjectKind)))
    ensures r.2.Ok? <==> (
      && PR.FindById(projects, id).Some?
      && PR.FindById(projects, id).value.IsActive()
      && (force || PMS.CanArchiveProject(tasks, id)))
    ensures !force && r.2.Err? ==> r.0 == projects && r.1 == tasks
    ensures PR.FindById(projects, id).Some? && !force && !PMS.CanArchiveProject(tasks, id) && PR.FindById(projects, id).value.IsActive()
      ==> r.2 == Err(ActiveTasksPresent)
    ensures !force && r.2.Ok? ==> r.1 == tasks && r.0.rows == projects.rows + [Projects.Archive(PR.FindById(projects, id).value, clock)]
  {
    match PR.FindById(projects, id)
    case None => (projects, tasks, Err(ProjectNotFound))
    case Some(existing) =>
      if existing.IsArchived() then (projects, tasks, Err(AlreadyArchived(ProjectKind)))
      else if force then PMS.ArchiveProjectWithTasks(projects, tasks, id, clock)
      else if !PMS.CanArchiveProject(tasks, id) then (projects, tasks, Err(ActiveTasksPresent))
      else (PR.Save(projects, Projects.Archive(existing, clock)), tasks, Ok(()))
  }

  /** `restore_project`: only a currently archived project can be restored. */
  function RestoreProject(projects: PR.Repo, id: ProjectId, clock: int): (r: (PR.Repo, Result<Project>))
    ensures PR.FindById(projects, id).None? ==> r == (projects, Err(ProjectNotFound))
    ensures r.1.Ok? <==> PR.FindById(projects, id).Some? && PR.FindById(projects, id).value.IsArchived()
    ensures PR.FindById(projects, id).Some? && PR.FindById(projects, id).value.IsActive() ==> r == (projects, Err(NotArchived(ProjectKind)))
    ensures r.1.Ok? ==> r.0.rows == projects.rows + [r.1.value]
    ensures r.1.Ok? ==> r.1.value.IsActive() && r.1.value.id == id && r.1.value.name == PR.FindById(projects, id).value.name
  {
    match PR.FindById(projects, id)
    case None => (projects, Err(ProjectNotFound))
    case Some(existing) =>
      match Projects.Restore(existing, clock)
      case Err(e) => (projects, Err(e))
      case Ok(p) => (PR.Save(projects, p), Ok(p))
  }

  /** The example state: one active project named "A", the counter at 2. */
  function ProjectA(): Project {
    Project(ProjectId(1), "A", Active, 0)
  }

  function OnlyA(): PR.Repo {
    PR.Repo([ProjectA()], 2)
  }

  lemma TrimPaddedA()
    ensures Trim(" A") == "A"
    ensures Names.Acceptable(" A")
  {
    assert LeadingWhitespace(" A") == 1 by {
      assert !IsWhitespace(" A"[1..][0]);
    }
    assert " A"[1..] == "A";
    assert TrailingWhitespace("A") == 0;
    assert !IsWhitespace(" A"[1]);
  }

  lemma OnlyACurrent(p: Project)
    ensures PR.FindById(OnlyA(), p.id) == Some(p) <==> p == ProjectA()
  {
    if PR.FindById(OnlyA(), p.id) == Some(p) {
      assert p in OnlyA().rows;
    }
    if p == ProjectA() {
      assert OnlyA().rows[0].id == p.id;
    }
  }

  lemma OnlyAInvariant()
    ensures NamesDistinct(OnlyA())
    ensures PMS.IsProjectNameUnique(OnlyA(), " A", None)
    ensures !PMS.IsProjectNameUnique(OnlyA(), "A", None)
  {
    forall p: Project
      ensures PR.FindById(OnlyA(), p.id) == Some(p) <==> p == ProjectA()
    {
      OnlyACurrent(p);
    }
  }

  /** A project named " A" passes the check as written next to a project named "A", and
      is stored as "A": two current projects then share a name. The corrected check turns
      the same request down. */
  lemma CreateRawCheckAdmitsDuplicate()
    ensures NamesDistinct(OnlyA())
    ensures CreateProjectRawCheck(OnlyA(), " A", 1).1.Ok?
    ensures !NamesDistinct(CreateProjectRawCheck(OnlyA(), " A", 1).0)
    ensures CreateProject(OnlyA(), " A", 1) == (OnlyA(), Err(NameAlreadyExists(" A")))
  {
    OnlyAInvariant();
    TrimPaddedA();
    var r := CreateProjectRawCheck(OnlyA(), " A", 1);
    var b := r.1.value;
    assert r.0 == PR.Save(PR.NextId(OnlyA()).0, b);
    assert PR.FindById(r.0, ProjectA().id) == Some(ProjectA()) by {
      OnlyACurrent(ProjectA());
    }
    assert PR.FindById(r.0, b.id) == Some(b);
  }

  /** The second example state: projects "A" and "B", the counter at 3. */
  function ProjectB(): Project {
    Project(ProjectId(2), "B", Active, 0)
  }

  function OnlyAB(): PR.Repo {
    PR.Repo([ProjectA(), ProjectB()], 3)
  }

  lemma OnlyABCurrent(p: Project)
    ensures PR.FindById(OnlyAB(), p.id) == Some(p) <==> p == ProjectA() || p == ProjectB()
  {
    if PR.FindById(OnlyAB(), p.id) == Some(p) {
      assert p in OnlyAB().rows;
    }
    if p == ProjectA() {
      assert OnlyAB().rows[0].id == p.id;
    }
    if p == ProjectB() {
      assert OnlyAB().rows[1].id == p.id;
    }
  }

  lemma OnlyABInvariant()
    ensures NamesDistinct(OnlyAB())
    ensures PMS.IsProjectNameUnique(OnlyAB(), " A", Some(ProjectB().id))
    ensures !PMS.IsProjectNameUnique(OnlyAB(), "A", Some(ProjectB().id))
    ensures PR.FindById(OnlyAB(), ProjectB().id) == Some(ProjectB())
  {
    OnlyABNamesDistinct();
    OnlyABPaddedUnique();
    OnlyABCurrent(ProjectA());
    OnlyABCurrent(ProjectB());
  }

  lemma OnlyABNamesDistinct()
    ensures NamesDistinct(OnlyAB())
  {
    OnlyABAll();
  }

  lemma OnlyABPaddedUnique()
    ensures PMS.IsProjectNameUnique(OnlyAB(), " A", Some(ProjectB().id))
  {
    OnlyABAll();
  }

  lemma OnlyABAll()
    ensures forall p: Project :: PR.FindById(OnlyAB(), p.id) == Some(p) <==> p == ProjectA() || p == ProjectB()
  {
    forall p: Project
      ensures PR.FindById(OnlyAB(), p.id) == Some(p) <==> p == ProjectA() || p == ProjectB()
    {
      OnlyABCurrent(p);
    }
  }

  /** Renaming "B" to " A" passes the check as written and stores "A" next to the existing
      "A". The corrected check turns the same request down. */
  lemma UpdateRawCheckAdmitsDuplicate()
    ensures NamesDistinct(OnlyAB())
    ensures UpdateProjectRawCheck(OnlyAB(), ProjectB().id, " A", 1).1.Ok?
    ensures !NamesDistinct(UpdateProjectRawCheck(OnlyAB(), ProjectB().id, " A", 1).0)
    ensures UpdateProject(OnlyAB(), ProjectB().id, " A", 1) == (OnlyAB(), Err(NameAlreadyExists(" A")))
  {
    OnlyABNamesDistinct();
    UpdateRawCheckPasses();
    UpdateRawCheckDuplicates();
    UpdateCorrectedRejects();
  }

  lemma UpdateRawCheckPasses()
    ensures UpdateProjectRawCheck(OnlyAB(), ProjectB().id, " A", 1).1.Ok?
  {
    OnlyABInvariant();
    TrimPaddedA();
  }

  lemma UpdateRawCheckDuplicates()
    ensures UpdateProjectRawCheck(OnlyAB(), ProjectB().id, " A", 1).1.Ok?
    ensures !NamesDistinct(UpdateProjectRawCheck(OnlyAB(), ProjectB().id, " A", 1).0)
  {
    UpdateRawCheckPasses();
    TrimPaddedA();
    var r := UpdateProjectRawCheck(OnlyAB(), ProjectB().id, " A", 1);
    var b := r.1.value;
    assert r.0 == PR.Save(OnlyAB(), b);
    assert PR.FindById(r.0, ProjectA().id) == Some(ProjectA()) by {
      OnlyABCurrent(ProjectA());
    }
    assert PR.FindById(r.0, b.id) == Some(b) by {
      forall q | q in OnlyAB().rows && q.id == b.id
        ensures q.effectiveAt <= b.effectiveAt
      {
      }
    }
  }

  lemma UpdateCorrectedRejects()
    ensures UpdateProject(OnlyAB(), ProjectB().id, " A", 1) == (OnlyAB(), Err(NameAlreadyExists(" A")))
  {
    OnlyABCurrent(ProjectA());
    OnlyABCurrent(ProjectB());
    TrimPaddedA();
    UpdateRejectsTakenName(OnlyAB(), ProjectB().id, " A", Trim(" A"), 1, ProjectA());
  }

  /** The check turns a rename down when another current project already has the checked
      name. */
  lemma UpdateRejectsTakenName(projects: PR.Repo, id: ProjectId, name: string, checked: string, clock: int, other: Project)
    requires PR.FindById(projects, id).Some? && PR.FindById(projects, id).value.IsActive()
    requires PR.FindById(projects, id).value.name != checked
    requires PR.FindById(projects, other.id) == Some(other) && other.name == checked && other.id != id
    ensures UpdateChecking(projects, id, name, checked, clock) == (projects, Err(NameAlreadyExists(name)))
  {
    var existing := PR.FindById(projects, id).value;
    assert !existing.IsArchived();
    assert !PMS.IsProjectNameUnique(projects, checked, Some(id));
  }

  /** A version stamped with a clock that no saved version is ahead of becomes current. */
  lemma SavedAtClockIsCurrent(projects: PR.Repo, p: Project, clock: int)
    requires PMS.ProjectsNotAfter(projects, clock)
    requires p.effectiveAt == clock
    ensures PR.FindById(PR.Save(projects, p), p.id) == Some(p)
    ensures PMS.ProjectsNotAfter(PR.Save(projects, p), clock)
  {
    assert PR.Save(projects, p).rows == projects.rows + [p];
  }

  /** Saving a version keeps names distinct when it becomes current and no other current
      project has its name. */
  lemma SaveKeepsNamesDistinct(projects: PR.Repo, p: Project)
    requires NamesDistinct(projects)
    requires PR.FindById(PR.Save(projects, p), p.id) == Some(p)
    requires forall q: Project :: PR.FindById(projects, q.id) == Some(q) && q.name == p.name ==> q.id == p.id
    ensures NamesDistinct(PR.Save(projects, p))
  {
    var after := PR.Save(projects, p);
    forall a: Project, b: Project | PR.FindById(after, a.id) == Some(a) && PR.FindById(after, b.id) == Some(b) && a.name == b.name
      ensures a.id == b.id
    {
      if a.id != p.id && b.id != p.id {
        assert PR.FindById(projects, a.id) == Some(a);
        assert PR.FindById(projects, b.id) == Some(b);
      } else if a.id == p.id {
        OtherWithNameIsSaved(projects, p, b);
      } else {
        OtherWithNameIsSaved(projects, p, a);
      }
    }
  }

  /** A project current after the save that shares the saved version's name is that version's project. */
  lemma OtherWithNameIsSaved(projects: PR.Repo, p: Project, b: Project)
    requires forall q: Project :: PR.FindById(projects, q.id) == Some(q) && q.name == p.name ==> q.id == p.id
    requires PR.FindById(PR.Save(projects, p), b.id) == Some(b) && b.name == p.name
    ensures b.id == p.id
  {
  }

  /** With the corrected check, creating a project keeps names distinct, as long as every
      saved id came from the counter. */
  lemma CreateProjectKeepsNamesDistinct(projects: PR.Repo, name: string, clock: int)
    requires NamesDistinct(projects)
    requires PR.CounterAhead(projects)
    ensures NamesDistinct(CreateProject(projects, name, clock).0)
    ensures PR.CounterAhead(CreateProject(projects, name, clock).0)
  {
    var r := CreateChecking(projects, name, Trim(name), clock);
    if r.1.Ok? {
      var p := r.1.value;
      var next := PR.NextId(projects).0;
      PR.NextIdIsFresh(projects);
      assert r.0 == PR.Save(next, p);
      NextIdKeepsCurrent(projects);
      SaveFreshKeepsNamesDistinct(next, p);
      PR.SaveKeepsCounterAhead(next, p);
    }
  }

  /** Taking an id leaves every project's current version as it was. */
  lemma NextIdKeepsCurrent(projects: PR.Repo)
    ensures forall id :: PR.FindById(PR.NextId(projects).0, id) == PR.FindById(projects, id)
    ensures NamesDistinct(projects) ==> NamesDistinct(PR.NextId(projects).0)
    ensures forall name, exclude :: PMS.IsProjectNameUnique(projects, name, exclude) == PMS.IsProjectNameUnique(PR.NextId(projects).0, name, exclude)
  {
    assert PR.NextId(projects).0.rows == projects.rows;
  }

  /** Saving a project under an unused id, with a name no current project has, keeps names
      distinct. */
  lemma SaveFreshKeepsNamesDistinct(projects: PR.Repo, p: Project)
    requires NamesDistinct(projects)
    requires !PR.Exists(projects, p.id)
    requires PMS.IsProjectNameUnique(projects, p.name, None)
    ensures PR.FindById(PR.Save(projects, p), p.id) == Some(p)
    ensures NamesDistinct(PR.Save(projects, p))
  {
    assert forall q :: q in projects.rows ==> PR.Exists(projects, q.id);
    SaveKeepsNamesDistinct(projects, p);
  }

  /** With the corrected check, renaming a project keeps names distinct. */
  lemma UpdateProjectKeepsNamesDistinct(projects: PR.Repo, id: ProjectId, name: string, clock: int)
    requires NamesDistinct(projects)
    requires PMS.ProjectsNotAfter(projects, clock)
    ensures NamesDistinct(UpdateProject(projects, id, name, clock).0)
  {
    var r := UpdateProject(projects, id, name, clock);
    if r.1.Ok? {
      var p := r.1.value;
      assert r.0 == PR.Save(projects, p);
      SavedAtClockIsCurrent(projects, p, clock);
      SaveKeepsNamesDistinct(projects, p);
    }
  }

  /** A successful `archive_project` leaves the project archived and without active tasks,
      and leaves every other project as it was. */
  lemma ArchiveProjectEffect(projects: PR.Repo, tasks: TR.Repo, id: ProjectId, force: bool, clock: int)
    requires ArchiveProject(projects, tasks, id, force, clock).2.Ok?
    requires PMS.ProjectsNotAfter(projects, clock)
    requires PMS.TasksNotAfter(tasks, clock)
    ensures PR.FindById(ArchiveProject(projects, tasks, id, force, clock).0, id)
         == Some(Projects.Archive(PR.FindById(projects, id).value, clock))
    ensures PMS.CanArchiveProject(ArchiveProject(projects, tasks, id, force, clock).1, id)
    ensures forall other :: other != id ==>
      PR.FindById(ArchiveProject(projects, tasks, id, force, clock).0, other) == PR.FindById(projects, other)
  {
    var p := PR.FindById(projects, id).value;
    SavedAtClockIsCurrent(projects, Projects.Archive(p, clock), clock);
    if force {
      PMS.ArchiveProjectWithTasksEffect(projects, tasks, id, clock);
    }
  }

  /** Archiving a project without tasks and then restoring it gives back the project as it
      was, active and restamped. */
  lemma ArchiveThenRestore(projects: PR.Repo, tasks: TR.Repo, id: ProjectId, c1: int, c2: int)
    requires ArchiveProject(projects, tasks, id, false, c1).2.Ok?
    requires PMS.ProjectsNotAfter(projects, c1)
    requires c1 <= c2
    ensures RestoreProject(ArchiveProject(projects, tasks, id, false, c1).0, id, c2).1
         == Ok(PR.FindById(projects, id).value.(effectiveAt := c2))
  {
    var p := PR.FindById(projects, id).value;
    SavedAtClockIsCurrent(projects, Projects.Archive(p, c1), c1);
  }

  /** Saving an active version that becomes current keeps every active task under an active
      project. */
  lemma SaveActiveKeepsHierarchy(projects: PR.Repo, tasks: TR.Repo, p: Project)
    requires PMS.HierarchyValid(projects, tasks)
    requires PR.FindById(PR.Save(projects, p), p.id) == Some(p) && p.IsActive()
    ensures PMS.HierarchyValid(PR.Save(projects, p), tasks)
  {
    var after := PR.Save(projects, p);
    forall t: Tasks.Task | TR.FindById(tasks, t.id) == Some(t) && t.IsActive()
      ensures PR.FindById(after, t.projectId).Some? && PR.FindById(after, t.projectId).value.IsActive()
    {
      if t.projectId != p.id {
        assert PR.FindById(after, t.projectId) == PR.FindById(projects, t.projectId);
      }
    }
  }

  /** Creating a project keeps every active task under an active project. */
  lemma CreateProjectKeepsHierarchy(projects: PR.Repo, tasks: TR.Repo, name: string, clock: int)
    requires PMS.HierarchyValid(projects, tasks)
    requires PMS.ProjectsNotAfter(projects, clock)
    ensures PMS.HierarchyValid(CreateProject(projects, name, clock).0, tasks)
  {
    var r := CreateChecking(projects, name, Trim(name), clock);
    if r.1.Ok? {
      var next := PR.NextId(projects).0;
      assert r.0 == PR.Save(next, r.1.value);
      assert PMS.HierarchyValid(next, tasks) by {
        assert forall id :: PR.FindById(next, id) == PR.FindById(projects, id);
      }
      assert PMS.ProjectsNotAfter(next, clock);
      SavedAtClockIsCurrent(next, r.1.value, clock);
      SaveActiveKeepsHierarchy(next, tasks, r.1.value);
    }
  }

  /** Renaming a project keeps every active task under an active project. */
  lemma UpdateProjectKeepsHierarchy(projects: PR.Repo, tasks: TR.Repo, id: ProjectId, name: string, clock: int)
    requires PMS.HierarchyValid(projects, tasks)
    requires PMS.ProjectsNotAfter(projects, clock)
    ensures PMS.HierarchyValid(UpdateProject(projects, id, name, clock).0, tasks)
  {
    var r := UpdateChecking(projects, id, name, Trim(name), clock);
    if r.1.Ok? {
      assert r.0 == PR.Save(projects, r.1.value);
      SavedAtClockIsCurrent(projects, r.1.value, clock);
      SaveActiveKeepsHierarchy(projects, tasks, r.1.value);
    }
  }

  /** Archiving a project, with or without `force`, keeps every active task under an active
      project. */
  lemma ArchiveProjectKeepsHierarchy(projects: PR.Repo, tasks: TR.Repo, id: ProjectId, force: bool, clock: int)
    requires PMS.HierarchyValid(projects, tasks)
    requires PMS.ProjectsNotAfter(projects, clock)
    requires PMS.TasksNotAfter(tasks, clock)
    ensures PMS.HierarchyValid(ArchiveProject(projects, tasks, id, force, clock).0, ArchiveProject(projects, tasks, id, force, clock).1)
  {
    var r := ArchiveProject(projects, tasks, id, force, clock);
    if r.2.Ok? {
      ArchiveProjectEffect(projects, tasks, id, force, clock);
      if force {
        PMS.ArchiveProjectWithTasksEffect(projects, tasks, id, clock);
      }
    }
  }

  /** Restoring a project keeps every active task under an active project. */
  lemma RestoreProjectKeepsHierarchy(projects: PR.Repo, tasks: TR.Repo, id: ProjectId, clock: int)
    requires PMS.HierarchyValid(projects, tasks)
    requires PMS.ProjectsNotAfter(projects, clock)
    ensures PMS.HierarchyValid(RestoreProject(projects, id, clock).0, tasks)
  {
    var r := RestoreProject(projects, id, clock);
    if r.1.Ok? {
      assert r.0 == PR.Save(projects, r.1.value);
      SavedAtClockIsCurrent(projects, r.1.value, clock);
    }
  }
}
