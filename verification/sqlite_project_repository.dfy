/** `SqliteProjectRepository`: projects kept in the `projects` and `project_versions` tables
    and read back through `project_current_view`. Reading rebuilds each project from its
    columns; `clock` stands for the `Utc::now()` that `archive()` reads while rebuilding an
    archived one. */
module SqliteProjectRepository {
  import opened Base
  import opened Text
  import opened Seqs
  import opened Statuses
  import opened ProjectIds
  import opened Projects
  import opened VersionTables
  import opened Database
  import PR = ProjectRepository
  import VS = VersionStore
  import Names

  /** The columns a project version is written as. */
  function DataOf(p: Project): (d: ProjectData)
    ensures d.name == p.name
    ensures StatusAllowed(d.status) && FromStr(d.status) == Ok(p.status)
  {
    RoundTrip(p.status);
    ProjectData(p.name, AsStr(p.status))
  }

  /** `save`: registers the id (`INSERT OR IGNORE`), numbers the version one past the
      project's highest, and inserts it. The insert satisfies every constraint, so the save
      never fails. */
  function Save(db: Db, p: Project): (r: (Db, Result<()>))
    ensures r.1.Ok?
    ensures r.0.tasks == db.tasks
    ensures forall x :: x in r.0.projects.ids <==> x in db.projects.ids || x == p.id.value
    ensures |r.0.projects.rows| == |db.projects.rows| + 1
    ensures r.0.projects.rows[..|db.projects.rows|] == db.projects.rows
    ensures var row := r.0.projects.rows[|db.projects.rows|];
            && row.entity == p.id.value && row.data == DataOf(p) && row.effectiveAt == p.effectiveAt
            && row.version == NextVersion(db.projects.rows, p.id.value)
            && forall x :: x in db.projects.rows && x.entity == p.id.value ==> x.version < row.version
    ensures SchemaHolds(db) ==> SchemaHolds(r.0)
  {
    var e := p.id.value;
    var ids := InsertOrIgnore(db.projects.ids, e);
    var row := Row(e, NextVersion(db.projects.rows, e), DataOf(p), p.effectiveAt);
    match InsertRow(db.projects.rows, row, StatusAllowed(row.data.status), row.entity in ids)
    case Err(err) => (db.(projects := Table(ids, db.projects.rows)), Err(err))
    case Ok(rows) =>
      assert rows[..|db.projects.rows|] == db.projects.rows;
      (db.(projects := Table(ids, rows)), Ok(()))
  }

  // ---------------------------------------------------------------- rebuilding rows

  /** How `find_by_id`, `find_history` and `find_at_time` rebuild a version for the id asked
      about: the status is parsed, the name goes through `new_with_time`, and an archived
      status is applied with `archive()`. */
  function RebuildAs(id: ProjectId, row: Row<ProjectData>, clock: int): (r: Result<Project>)
    ensures !StatusAllowed(row.data.status) ==> r == Err(InvalidStatus(row.data.status))
    ensures r.Ok? <==> StatusAllowed(row.data.status) && Names.Acceptable(row.data.name)
    ensures r.Ok? ==> && r.value.id == id && r.value.name == Trim(row.data.name)
                      && AsStr(r.value.status) == row.data.status
                      && r.value.effectiveAt == (if r.value.IsArchived() then clock else row.effectiveAt)
  {
    var status :- FromStr(row.data.status);
    var p :- NewWithTime(id, row.data.name, row.effectiveAt);
    Ok(if status.IsArchived() then Archive(p, clock) else p)
  }

  /** How the view queries rebuild a row: the id column is checked first. */
  function Rebuild(row: Row<ProjectData>, clock: int): (r: Result<Project>)
    ensures row.entity <= 0 ==> r == Err(IdNotPositive(ProjectKind))
    ensures row.entity > 0 ==> r == RebuildAs(ProjectId(row.entity), row, clock)
  {
    var id :- ProjectIds.New(row.entity);
    RebuildAs(id, row, clock)
  }

  /** How `find_all_active` rebuilds a row: the status column is not read and nothing is
      archived. */
  function RebuildActive(row: Row<ProjectData>): (r: Result<Project>)
    ensures r.Ok? <==> row.entity > 0 && Names.Acceptable(row.data.name)
    ensures r.Ok? ==> && r.value.id.value == row.entity && r.value.name == Trim(row.data.name)
                      && r.value.IsActive() && r.value.effectiveAt == row.effectiveAt
  {
    var id :- ProjectIds.New(row.entity);
    NewWithTime(id, row.data.name, row.effectiveAt)
  }

  function Rebuilder(clock: int): Row<ProjectData> -> Result<Project> {
    (row: Row<ProjectData>) => Rebuild(row, clock)
  }

  function ActiveRebuilder(): Row<ProjectData> -> Result<Project> {
    (row: Row<ProjectData>) => RebuildActive(row)
  }

  function RebuilderAs(id: ProjectId, clock: int): Row<ProjectData> -> Result<Project> {
    (row: Row<ProjectData>) => RebuildAs(id, row, clock)
  }

  // ---------------------------------------------------------------- queries

  /** `SELECT … FROM project_current_view WHERE …`: the view rows whose columns satisfy
      `keep`, in view order. */
  function Query(db: Db, keep: ProjectData -> bool): (v: seq<Row<ProjectData>>)
    ensures forall r :: r in v <==> r in ProjectView(db) && keep(r.data)
  {
    Filter(ProjectView(db), (r: Row<ProjectData>) => keep(r.data))
  }

  function Everything(): ProjectData -> bool {
    (d: ProjectData) => true
  }

  function StatusIs(s: string): ProjectData -> bool {
    (d: ProjectData) => d.status == s
  }

  /** `name LIKE '<prefix>%'`, read as a case-sensitive prefix test. */
  function NameStartsWith(prefix: string): ProjectData -> bool {
    (d: ProjectData) => StartsWith(d.name, prefix)
  }

  /** `find_by_id`: the view row of the id (`query_row` takes the first), rebuilt; no row
      is `None`. */
  function FindById(db: Db, id: ProjectId, clock: int): (r: Result<Option<Project>>)
    ensures r == Ok(None) <==> forall x :: x in db.projects.rows ==> x.entity != id.value
    ensures r.Ok? && r.value.Some? ==> r.value.value.id == id
  {
    ViewCovers(db.projects.rows, id.value);
    match FindFirst(ProjectView(db), Within(id.value, None))
    case None => Ok(None)
    case Some(row) =>
      var p :- Rebuild(row, clock);
      Ok(Some(p))
  }

  /** `find_all_active`: the view rows stored as `'active'`. */
  function FindAllActive(db: Db): (r: Result<seq<Project>>)
    ensures r.Ok? ==> forall p :: p in r.value ==> p.IsActive()
  {
    Collect(Query(db, StatusIs("active")), ActiveRebuilder())
  }

  /** `find_all`: every view row. */
  function FindAll(db: Db, clock: int): (r: Result<seq<Project>>)
    ensures r.Ok? ==> |r.value| <= |ProjectView(db)|
  {
    Collect(Query(db, Everything()), Rebuilder(clock))
  }

  /** `find_by_status`: the view rows stored with the status's spelling. */
  function FindByStatus(db: Db, status: Status, clock: int): (r: Result<seq<Project>>)
    ensures r.Ok? ==> forall p :: p in r.value ==> p.status == status
  {
    StatusQueryRebuilds(db, status, clock);
    Collect(Query(db, StatusIs(AsStr(status))), Rebuilder(clock))
  }

  lemma StatusQueryRebuilds(db: Db, status: Status, clock: int)
    ensures var r := Collect(Query(db, StatusIs(AsStr(status))), Rebuilder(clock));
            r.Ok? ==> forall p :: p in r.value ==> p.status == status
  {
    var v := Query(db, StatusIs(AsStr(status)));
    var r := Collect(v, Rebuilder(clock));
    if r.Ok? {
      forall p | p in r.value
        ensures p.status == status
      {
        var k := CollectMember(v, Rebuilder(clock), p);
        assert v[k] in v;
        AsStrInjective(p.status, status);
      }
    }
  }

  /** `find_by_name_prefix`: the view rows whose stored name starts with `prefix`. */
  function FindByNamePrefix(db: Db, prefix: string, clock: int): (r: Result<seq<Project>>)
    ensures r.Ok? ==> |r.value| <= |ProjectView(db)|
  {
    Collect(Query(db, NameStartsWith(prefix)), Rebuilder(clock))
  }

  /** `exists`: the id is in the identifier table. */
  predicate Exists(db: Db, id: ProjectId) {
    id.value in db.projects.ids
  }

  /** `next_id`: one past the largest id in the identifier table, checked by
      `ProjectId::new`. It only reads: two calls without a save in between give the same
      id. */
  function NextId(db: Db): (r: Result<ProjectId>)
    ensures r.Ok? ==> !Exists(db, r.value)
    ensures (forall x :: x in db.projects.ids ==> x > 0) ==> r.Ok?
  {
    var n := VersionTables.NextId(db.projects.ids);
    assert |db.projects.ids| > 0 ==> n - 1 in db.projects.ids;
    ProjectIds.New(n)
  }

  /** `find_history`: every version of the id ordered by effective time, rebuilt. */
  function FindHistory(db: Db, id: ProjectId, clock: int): (r: Result<seq<Project>>)
    ensures r.Ok? ==> forall p :: p in r.value ==> p.id == id
    ensures r.Ok? ==> |r.value| == |VS.VersionsOf(db.projects.rows, EntityOf, id.value)|
  {
    var h := VS.History(db.projects.rows, EntityOf, EffectiveAt, id.value);
    assert |h| == |VS.VersionsOf(db.projects.rows, EntityOf, id.value)| by {
      assert |h| == |multiset(h)|;
    }
    Collect(h, RebuilderAs(id, clock))
  }

  /** `find_history` with each archived version archived at its own stored stamp, not at
      the clock: the history the version table actually records. */
  function FindHistoryKeepingStamps(db: Db, id: ProjectId): (r: Result<seq<Project>>)
    ensures r.Ok? ==> forall p :: p in r.value ==> p.id == id
    ensures r.Ok? ==> |r.value| == |VS.VersionsOf(db.projects.rows, EntityOf, id.value)|
  {
    var h := VS.History(db.projects.rows, EntityOf, EffectiveAt, id.value);
    assert |h| == |VS.VersionsOf(db.projects.rows, EntityOf, id.value)| by {
      assert |h| == |multiset(h)|;
    }
    Collect(h, StampKeepingRebuilder(id))
  }

  function StampKeepingRebuilder(id: ProjectId): Row<ProjectData> -> Result<Project> {
    (row: Row<ProjectData>) => RebuildAs(id, row, row.effectiveAt)
  }

  /** `find_at_time`: the version of the id effective at or before `at` that ranks first by
      effective time then version, rebuilt. */
  function FindAtTime(db: Db, id: ProjectId, at: int, clock: int): (r: Result<Option<Project>>)
    ensures r == Ok(None) <==> forall x :: x in db.projects.rows && x.entity == id.value ==> x.effectiveAt > at
    ensures r.Ok? && r.value.Some? ==> r.value.value.id == id
  {
    match TopWhere(db.projects.rows, Within(id.value, Some(at)))
    case None => Ok(None)
    case Some(row) =>
      var p :- RebuildAs(id, row, clock);
      Ok(Some(p))
  }
}
