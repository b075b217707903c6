/** `SqliteTaskRepository`: tasks kept in the `tasks` and `task_versions` tables and read
    back through `task_current_view`. Each version row carries the id of the project the
    task belonged to, under a foreign key into `projects`. `clock` stands for the
    `Utc::now()` that `archive()` reads while rebuilding an archived task. */
module SqliteTaskRepository {
  import opened Base
  import opened Text
  import opened Seqs
  import opened Statuses
  import opened ProjectIds
  import opened TaskIds
  import opened Tasks
  import opened VersionTables
  import opened Database
  import TR = TaskRepository
  import VS = VersionStore
  import Names

  /** The columns a task version is written as. */
  function DataOf(t: Task): (d: TaskData)
    ensures d.projectId == t.projectId.value && d.name == t.name
    ensures StatusAllowed(d.status) && FromStr(d.status) == Ok(t.status)
  {
    RoundTrip(t.status);
    TaskData(t.projectId.value, t.name, AsStr(t.status))
  }

  /** `save`: registers the task id (`INSERT OR IGNORE`), numbers the version one past the
      task's highest, and inserts it. The insert fails on the foreign key exactly when the
      task's project was never saved; the task id stays registered all the same, since the
      statements do not share a transaction. */
  function Save(db: Db, t: Task): (r: (Db, Result<()>))
    ensures r.0.projects == db.projects
    ensures forall x :: x in r.0.tasks.ids <==> x in db.tasks.ids || x == t.id.value
    ensures r.1.Ok? <==> t.projectId.value in db.projects.ids
    ensures r.1.Err? ==> r.1.error == ForeignKeyConstraintFailed && r.0.tasks.rows == db.tasks.rows
    ensures r.1.Ok? ==> |r.0.tasks.rows| == |db.tasks.rows| + 1
    ensures r.1.Ok? ==> r.0.tasks.rows[..|db.tasks.rows|] == db.tasks.rows
    ensures r.1.Ok? ==>
            var row := r.0.tasks.rows[|db.tasks.rows|];
            && row.entity == t.id.value && row.data == DataOf(t) && row.effectiveAt == t.effectiveAt
            && row.version == NextVersion(db.tasks.rows, t.id.value)
    ensures SchemaHolds(db) ==> SchemaHolds(r.0)
  {
    var e := t.id.value;
    var ids := InsertOrIgnore(db.tasks.ids, e);
    var row := Row(e, NextVersion(db.tasks.rows, e), DataOf(t), t.effectiveAt);
    match InsertRow(db.tasks.rows, row, StatusAllowed(row.data.status), row.entity in ids && row.data.projectId in db.projects.ids)
    case Err(err) => (db.(tasks := Table(ids, db.tasks.rows)), Err(err))
    case Ok(rows) =>
      assert rows[..|db.tasks.rows|] == db.tasks.rows;
      (db.(tasks := Table(ids, rows)), Ok(()))
  }

  // ---------------------------------------------------------------- rebuilding rows

  /** How `find_by_id`, `find_history` and `find_at_time` rebuild a version for the id asked
      about: the project id column goes through `ProjectId::new`, then the status is parsed,
      the name goes through `new_with_time`, and an archived status is applied with
      `archive()`. */
  function RebuildAs(id: TaskId, row: Row<TaskData>, clock: int): (r: Result<Task>)
    ensures row.data.projectId <= 0 ==> r == Err(IdNotPositive(ProjectKind))
    ensures row.data.projectId > 0 && !StatusAllowed(row.data.status) ==> r == Err(InvalidStatus(row.data.status))
    ensures r.Ok? <==> row.data.projectId > 0 && StatusAllowed(row.data.status) && Names.Acceptable(row.data.name)
    ensures r.Ok? ==> && r.value.id == id && r.value.projectId.value == row.data.projectId
                      && r.value.name == Trim(row.data.name) && AsStr(r.value.status) == row.data.status
                      && r.value.effectiveAt == (if r.value.IsArchived() then clock else row.effectiveAt)
  {
    var projectId :- ProjectIds.New(row.data.projectId);
    var status :- FromStr(row.data.status);
    var t :- NewWithTime(id, projectId, row.data.name, row.effectiveAt);
    Ok(if status.IsArchived() then Archive(t, clock) else t)
  }

  /** How the view queries rebuild a row: the task id column is checked first. */
  function Rebuild(row: Row<TaskData>, clock: int): (r: Result<Task>)
    ensures row.entity <= 0 ==> r == Err(IdNotPositive(TaskKind))
    ensures row.entity > 0 ==> r == RebuildAs(TaskId(row.entity), row, clock)
  {
    var id :- TaskIds.New(row.entity);
    RebuildAs(id, row, clock)
  }

  /** How `find_all_active` and `find_active_by_project_id` rebuild a row: the status column
      is not read and nothing is archived. */
  function RebuildActive(row: Row<TaskData>): (r: Result<Task>)
    ensures row.entity <= 0 ==> r == Err(IdNotPositive(TaskKind))
    ensures r.Ok? <==> row.entity > 0 && row.data.projectId > 0 && Names.Acceptable(row.data.name)
    ensures r.Ok? ==> && r.value.id.value == row.entity && r.value.projectId.value == row.data.projectId
                      && r.value.name == Trim(row.data.name)
                      && r.value.IsActive() && r.value.effectiveAt == row.effectiveAt
  {
    var id :- TaskIds.New(row.entity);
    var projectId :- ProjectIds.New(row.data.projectId);
    NewWithTime(id, projectId, row.data.name, row.effectiveAt)
  }

  function Rebuilder(clock: int): Row<TaskData> -> Result<Task> {
    (row: Row<TaskData>) => Rebuild(row, clock)
  }

  function ActiveRebuilder(): Row<TaskData> -> Result<Task> {
    (row: Row<TaskData>) => RebuildActive(row)
  }

  function RebuilderAs(id: TaskId, clock: int): Row<TaskData> -> Result<Task> {
    (row: Row<TaskData>) => RebuildAs(id, row, clock)
  }

  function StampKeepingRebuilder(id: TaskId): Row<TaskData> -> Result<Task> {
    (row: Row<TaskData>) => RebuildAs(id, row, row.effectiveAt)
  }

  // ---------------------------------------------------------------- queries

  /** `SELECT … FROM task_current_view WHERE …`: the view rows whose columns satisfy `keep`,
      in view order. */
  function Query(db: Db, keep: TaskData -> bool): (v: seq<Row<TaskData>>)
    ensures forall r :: r in v <==> r in TaskView(db) && keep(r.data)
  {
    Filter(TaskView(db), (r: Row<TaskData>) => keep(r.data))
  }

  function Everything(): TaskData -> bool {
    (d: TaskData) => true
  }

  function StatusIs(s: string): TaskData -> bool {
    (d: TaskData) => d.status == s
  }

  /** `name LIKE '<prefix>%'`, read as a case-sensitive prefix test. */
  function NameStartsWith(prefix: string): TaskData -> bool {
    (d: TaskData) => StartsWith(d.name, prefix)
  }

  function InProject(projectId: int): TaskData -> bool {
    (d: TaskData) => d.projectId == projectId
  }

  function ActiveInProject(projectId: int): TaskData -> bool {
    (d: TaskData) => d.projectId == projectId && d.status == "active"
  }

  /** `find_by_id`: the view row of the id (`query_row` takes the first), rebuilt; no row
      is `None`. */
  function FindById(db: Db, id: TaskId, clock: int): (r: Result<Option<Task>>)
    ensures r == Ok(None) <==> forall x :: x in db.tasks.rows ==> x.entity != id.value
    ensures r.Ok? && r.value.Some? ==> r.value.value.id == id
  {
    ViewCovers(db.tasks.rows, id.value);
    match FindFirst(TaskView(db), Within(id.value, None))
    case None => Ok(None)
    case Some(row) =>
      var t :- Rebuild(row, clock);
      Ok(Some(t))
  }

  /** `find_by_project_id`: the view rows whose current version names the project. */
  function FindByProjectId(db: Db, projectId: ProjectId, clock: int): (r: Result<seq<Task>>)
    ensures r.Ok? ==> forall t :: t in r.value ==> t.projectId == projectId
  {
    Collect(Query(db, InProject(projectId.value)), Rebuilder(clock))
  }

  /** `find_active_by_project_id`: as `find_by_project_id`, the rows stored as `'active'`. */
  function FindActiveByProjectId(db: Db, projectId: ProjectId): (r: Result<seq<Task>>)
    ensures r.Ok? ==> forall t :: t in r.value ==> t.projectId == projectId && t.IsActive()
  {
    Collect(Query(db, ActiveInProject(projectId.value)), ActiveRebuilder())
  }

  /** `find_all_active`: the view rows stored as `'active'`. */
  function FindAllActive(db: Db): (r: Result<seq<Task>>)
    ensures r.Ok? ==> forall t :: t in r.value ==> t.IsActive()
  {
    Collect(Query(db, StatusIs("active")), ActiveRebuilder())
  }

  /** `find_all`: every view row. */
  function FindAll(db: Db, clock: int): (r: Result<seq<Task>>)
    ensures r.Ok? ==> |r.value| <= |TaskView(db)|
  {
    Collect(Query(db, Everything()), Rebuilder(clock))
  }

  /** `find_by_status`: the view rows stored with the status's spelling. */
  function FindByStatus(db: Db, status: Status, clock: int): (r: Result<seq<Task>>)
    ensures r.Ok? ==> forall t :: t in r.value ==> t.status == status
  {
    Collect(Query(db, StatusIs(AsStr(status))), Rebuilder(clock))
  }

  /** `find_by_name_prefix`: the view rows whose stored name starts with `prefix`. */
  function FindByNamePrefix(db: Db, prefix: string, clock: int): (r: Result<seq<Task>>)
    ensures r.Ok? ==> |r.value| <= |TaskView(db)|
  {
    Collect(Query(db, NameStartsWith(prefix)), Rebuilder(clock))
  }

  /** `exists`: the id is in the identifier table. */
  predicate Exists(db: Db, id: TaskId) {
    id.value in db.tasks.ids
  }

  /** `next_id`: one past the largest id in the identifier table, checked by `TaskId::new`.
      It only reads. */
  function NextId(db: Db): (r: Result<TaskId>)
    ensures r.Ok? ==> !Exists(db, r.value)
    ensures (forall x :: x in db.tasks.ids ==> x > 0) ==> r.Ok?
  {
    var n := VersionTables.NextId(db.tasks.ids);
    assert |db.tasks.ids| > 0 ==> n - 1 in db.tasks.ids;
    TaskIds.New(n)
  }

  /** `find_history`: every version of the id ordered by effective time, rebuilt. */
  function FindHistory(db: Db, id: TaskId, clock: int): (r: Result<seq<Task>>)
    ensures r.Ok? ==> forall t :: t in r.value ==> t.id == id
    ensures r.Ok? ==> |r.value| == |VS.VersionsOf(db.tasks.rows, EntityOf, id.value)|
  {
    var h := VS.History(db.tasks.rows, EntityOf, EffectiveAt, id.value);
    assert |h| == |VS.VersionsOf(db.tasks.rows, EntityOf, id.value)| by {
      assert |h| == |multiset(h)|;
    }
    Collect(h, RebuilderAs(id, clock))
  }

  /** `find_history` with each archived version archived at its own stored stamp, not at
      the clock. */
  function FindHistoryKeepingStamps(db: Db, id: TaskId): (r: Result<seq<Task>>)
    ensures r.Ok? ==> forall t :: t in r.value ==> t.id == id
    ensures r.Ok? ==> |r.value| == |VS.VersionsOf(db.tasks.rows, EntityOf, id.value)|
  {
    var h := VS.History(db.tasks.rows, EntityOf, EffectiveAt, id.value);
    assert |h| == |VS.VersionsOf(db.tasks.rows, EntityOf, id.value)| by {
      assert |h| == |multiset(h)|;
    }
    Collect(h, StampKeepingRebuilder(id))
  }

  /** `find_at_time`: the version of the id effective at or before `at` that ranks first by
      effective time then version, rebuilt. */
  function FindAtTime(db: Db, id: TaskId, at: int, clock: int): (r: Result<Option<Task>>)
    ensures r == Ok(None) <==> forall x :: x in db.tasks.rows && x.entity == id.value ==> x.effectiveAt > at
    ensures r.Ok? && r.value.Some? ==> r.value.value.id == id
  {
    match TopWhere(db.tasks.rows, Within(id.value, Some(at)))
    case None => Ok(None)
    case Some(row) =>
      var t :- RebuildAs(id, row, clock);
      Ok(Some(t))
  }

  /** `count_by_project_id`: the length of `find_by_project_id`, whose errors it passes on. */
  function CountByProjectId(db: Db, projectId: ProjectId, clock: int): (r: Result<nat>)
    ensures r.Ok? <==> FindByProjectId(db, projectId, clock).Ok?
    ensures r.Ok? ==> r.value == |FindByProjectId(db, projectId, clock).value|
  {
    var ts :- FindByProjectId(db, projectId, clock);
    Ok(|ts|)
  }

  /** `find_by_project_id_ordered`: the same tasks, sorted stably by name. */
  function FindByProjectIdOrdered(db: Db, projectId: ProjectId, clock: int): (r: Result<seq<Task>>)
    ensures r.Ok? <==> FindByProjectId(db, projectId, clock).Ok?
    ensures r.Ok? ==> multiset(r.value) == multiset(FindByProjectId(db, projectId, clock).value)
    ensures r.Ok? ==> forall i, j :: 0 <= i < j < |r.value| ==> LexLe(r.value[i].name, r.value[j].name)
  {
    var ts :- FindByProjectId(db, projectId, clock);
    TR.NameLeIsTotalPreorder();
    Ok(SortBy(ts, TR.NameLe))
  }
}
