/** The SQLite schema `DatabaseConnection::run_migrations` creates through `create_schema`:
    identifier tables for projects and tasks, their version tables with the status `CHECK`,
    the foreign keys and the `UNIQUE(.., version)` keys, and the two current-state views.
    Time entries are not part of this model. */
module Database {
  import opened Base
  import opened VersionTables

  /** The columns of `project_versions` besides the key and the timestamp. */
  datatype ProjectData = ProjectData(name: string, status: string)

  /** The columns of `task_versions` besides the key and the timestamp. */
  datatype TaskData = TaskData(projectId: int, name: string, status: string)

  datatype Db = Db(projects: Table<ProjectData>, tasks: Table<TaskData>)

  /** A freshly initialised database. */
  const Initial: Db := Db(Table([], []), Table([], []))

  /** `CHECK (status IN ('active', 'archived'))`. */
  predicate StatusAllowed(s: string) {
    s == "active" || s == "archived"
  }

  /** A project version row passes its `CHECK` and its foreign key into `projects`. */
  predicate ProjectRowAllowed(ids: seq<int>, r: Row<ProjectData>) {
    StatusAllowed(r.data.status) && r.entity in ids
  }

  /** A task version row passes its `CHECK` and its foreign keys into `tasks` and
      `projects`. */
  predicate TaskRowAllowed(taskIds: seq<int>, projectIds: seq<int>, r: Row<TaskData>) {
    StatusAllowed(r.data.status) && r.entity in taskIds && r.data.projectId in projectIds
  }

  /** Every constraint the schema declares holds of the stored rows. */
  predicate SchemaHolds(db: Db) {
    && Distinct(db.projects.ids)
    && Distinct(db.tasks.ids)
    && UniqueVersions(db.projects.rows)
    && UniqueVersions(db.tasks.rows)
    && (forall r :: r in db.projects.rows ==> ProjectRowAllowed(db.projects.ids, r))
    && (forall r :: r in db.tasks.rows ==> TaskRowAllowed(db.tasks.ids, db.projects.ids, r))
  }

  /** `project_current_view`. */
  function ProjectView(db: Db): (v: seq<Row<ProjectData>>)
    ensures forall r :: r in v <==> r in db.projects.rows && InView(db.projects.rows, r)
  {
    CurrentView(db.projects.rows)
  }

  /** `task_current_view`; its `project_id` column is the one of the selected version. */
  function TaskView(db: Db): (v: seq<Row<TaskData>>)
    ensures forall r :: r in v <==> r in db.tasks.rows && InView(db.tasks.rows, r)
  {
    CurrentView(db.tasks.rows)
  }

  /** Under the schema's unique keys each view holds one row per entity: the one with the
      latest effective time, the highest version among ties. */
  lemma ViewsOnePerEntity(db: Db)
    requires SchemaHolds(db)
    ensures forall i, j :: 0 <= i < j < |ProjectView(db)| ==> ProjectView(db)[i].entity != ProjectView(db)[j].entity
    ensures forall i, j :: 0 <= i < j < |TaskView(db)| ==> TaskView(db)[i].entity != TaskView(db)[j].entity
  {
    ViewOnePerEntity(db.projects.rows);
    ViewOnePerEntity(db.tasks.rows);
  }

  /** A view shows an entity exactly when it has versions. */
  lemma ViewsCover(db: Db, e: int)
    ensures (exists r :: r in ProjectView(db) && r.entity == e) <==> (exists r :: r in db.projects.rows && r.entity == e)
    ensures (exists r :: r in TaskView(db) && r.entity == e) <==> (exists r :: r in db.tasks.rows && r.entity == e)
  {
    ViewCovers(db.projects.rows, e);
    ViewCovers(db.tasks.rows, e);
  }
}
