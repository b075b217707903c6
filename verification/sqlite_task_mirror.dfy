/** The SQLite task store next to the in-memory one. When both have taken the same saves,
    each into an existing project, the tables hold the in-memory versions row for row, and
    every query answers alike, except that the SQLite store hands archived versions back
    restamped with the clock. A save into a project that was never saved is where the two
    part: the SQLite store refuses it on the foreign key but keeps the task id. */
module SqliteTaskMirror {
  import opened Base
  import opened Text
  import opened Seqs
  import opened Statuses
  import opened ProjectIds
  import opened TaskIds
  import opened Tasks
  import opened VersionTables
  import opened Database
  import opened SqliteTaskRepository
  import TR = TaskRepository
  import VS = VersionStore
  import Names

  /** `row` is the stored form of version `t`. */
  predicate Stores(row: Row<TaskData>, t: Task) {
    row.entity == t.id.value && row.data == DataOf(t) && row.effectiveAt == t.effectiveAt
  }

  predicate Aligned(rows: seq<Row<TaskData>>, ts: seq<Task>) {
    |rows| == |ts| && forall i :: 0 <= i < |rows| ==> Stores(rows[i], ts[i])
  }

  /** The identifier table lists exactly the ids of the versions `ts`. */
  ghost predicate Lists(ids: seq<int>, ts: seq<Task>) {
    forall x :: x in ids <==> exists i :: 0 <= i < |ts| && ts[i].id.value == x
  }

  /** The tables hold the in-memory versions in save order, numbered per task, and the
      identifier table lists exactly the saved ids. */
  ghost predicate Mirrors(t: Table<TaskData>, repo: TR.Repo) {
    Aligned(t.rows, repo.rows) && Numbered(t.rows) && Lists(t.ids, repo.rows)
  }

  lemma InitialMirrors()
    ensures Mirrors(Initial.tasks, TR.Empty)
  {
  }

  lemma ListsAppend(ids: seq<int>, ids2: seq<int>, ts: seq<Task>, t: Task)
    requires Lists(ids, ts)
    requires forall x :: x in ids2 <==> x in ids || x == t.id.value
    ensures Lists(ids2, ts + [t])
  {
    var us := ts + [t];
    forall x
      ensures x in ids2 <==> exists i :: 0 <= i < |us| && us[i].id.value == x
    {
      if x in ids && x != t.id.value {
        var i :| 0 <= i < |ts| && ts[i].id.value == x;
        assert us[i] == ts[i];
      }
      if x == t.id.value {
        assert us[|ts|] == t;
      }
      if x != t.id.value && exists i :: 0 <= i < |us| && us[i].id.value == x {
        var i :| 0 <= i < |us| && us[i].id.value == x;
        assert us[i] == ts[i];
      }
    }
  }

  lemma AlignedAppend(rows: seq<Row<TaskData>>, ts: seq<Task>, row: Row<TaskData>, t: Task)
    requires Aligned(rows, ts) && Stores(row, t)
    ensures Aligned(rows + [row], ts + [t])
  {
  }

  /** Saving the same task to both stores, into a project the database has, keeps them in
      step. */
  lemma SaveMirrors(db: Db, repo: TR.Repo, t: Task)
    requires Mirrors(db.tasks, repo)
    requires t.projectId.value in db.projects.ids
    ensures Save(db, t).1.Ok?
    ensures Mirrors(Save(db, t).0.tasks, TR.Save(repo, t))
  {
    var rows := db.tasks.rows;
    var tt := Save(db, t).0.tasks;
    var row := Row(t.id.value, NextVersion(rows, t.id.value), DataOf(t), t.effectiveAt);
    assert tt.rows == rows + [row] by {
      assert tt.rows == tt.rows[..|rows|] + [tt.rows[|rows|]];
    }
    AppendKeepsNumbered(rows, t.id.value, DataOf(t), t.effectiveAt);
    AlignedAppend(rows, repo.rows, row, t);
    ListsAppend(db.tasks.ids, tt.ids, repo.rows, t);
    assert TR.Save(repo, t).rows == repo.rows + [t];
  }

  /** A save of a new task into a project the database lacks fails on the foreign key, yet
      leaves the task id registered: `exists` then says yes while `find_by_id` finds
      nothing, and the in-memory store, which has no such key, saves the task. */
  lemma SaveWithoutProjectOrphansId(db: Db, repo: TR.Repo, t: Task, clock: int)
    requires Mirrors(db.tasks, repo)
    requires t.projectId.value !in db.projects.ids
    requires !Exists(db, t.id)
    ensures Save(db, t).1 == Err(ForeignKeyConstraintFailed)
    ensures Exists(Save(db, t).0, t.id)
    ensures FindById(Save(db, t).0, t.id, clock) == Ok(None)
    ensures TR.FindById(TR.Save(repo, t), t.id) == Some(t)
  {
    forall x | x in db.tasks.rows
      ensures x.entity != t.id.value
    {
      var j :| 0 <= j < |db.tasks.rows| && db.tasks.rows[j] == x;
      assert repo.rows[j].id.value in db.tasks.ids;
    }
    forall q | q in repo.rows
      ensures q.id != t.id
    {
      var j :| 0 <= j < |repo.rows| && repo.rows[j] == q;
      assert db.tasks.rows[j].entity == q.id.value;
    }
  }

  /** `exists` answers alike. */
  lemma ExistsAgrees(db: Db, repo: TR.Repo, id: TaskId)
    requires Mirrors(db.tasks, repo)
    ensures Exists(db, id) <==> TR.Exists(repo, id)
  {
  }

  /** The SQLite `next_id` always yields an id, and one that no saved task has. */
  lemma NextIdIsFresh(db: Db, repo: TR.Repo)
    requires Mirrors(db.tasks, repo)
    ensures SqliteTaskRepository.NextId(db).Ok?
    ensures !TR.Exists(repo, SqliteTaskRepository.NextId(db).value)
  {
    forall x | x in db.tasks.ids
      ensures x > 0
    {
      var i :| 0 <= i < |repo.rows| && repo.rows[i].id.value == x;
    }
  }

  /** A stored valid version rebuilds to itself, restamped with the clock if archived. */
  lemma RebuildStored(row: Row<TaskData>, t: Task, clock: int)
    requires Stores(row, t) && Valid(t)
    ensures Rebuild(row, clock) == Ok(Reloaded(t, clock))
    ensures RebuildAs(t.id, row, clock) == Ok(Reloaded(t, clock))
    ensures t.IsActive() ==> RebuildActive(row) == Ok(t)
  {
    Names.StoredRevalidates(TaskKind, t.name);
  }

  /** The row `ORDER BY effective_at DESC, version DESC` ranks first is the stored form of
      the version `max_by_key` picks. */
  lemma TopIsLatest(t: Table<TaskData>, repo: TR.Repo, id: TaskId, bound: Option<int>)
    requires Mirrors(t, repo)
    ensures var li := VS.LatestIndex(repo.rows, TR.IdOf, TR.StampOf, id, bound);
            TopWhere(t.rows, Within(id.value, bound)) == if li.None? then None else Some(t.rows[li.value])
  {
    var li := VS.LatestIndex(repo.rows, TR.IdOf, TR.StampOf, id, bound);
    assert forall j :: 0 <= j < |t.rows| ==>
      (VS.Selected(t.rows[j], EntityOf, EffectiveAt, id.value, bound) <==> VS.Selected(repo.rows[j], TR.IdOf, TR.StampOf, id, bound));
    if li.Some? {
      assert VS.IsLatest(t.rows, EntityOf, EffectiveAt, id.value, bound, li.value);
      LatestIsTop(t.rows, id.value, bound, li.value);
    } else {
      forall x | x in t.rows
        ensures !Within<TaskData>(id.value, bound)(x)
      {
        var j :| 0 <= j < |t.rows| && t.rows[j] == x;
        assert !VS.Selected(repo.rows[j], TR.IdOf, TR.StampOf, id, bound);
      }
    }
  }

  /** `find_by_id` answers alike, up to the restamp. */
  lemma FindByIdAgrees(db: Db, repo: TR.Repo, id: TaskId, clock: int)
    requires Mirrors(db.tasks, repo) && TR.AllValid(repo)
    ensures TR.FindById(repo, id).None? ==> FindById(db, id, clock) == Ok(None)
    ensures TR.FindById(repo, id).Some? ==> FindById(db, id, clock) == Ok(Some(Reloaded(TR.FindById(repo, id).value, clock)))
  {
    var rows := db.tasks.rows;
    NumberedUnique(rows);
    ViewRowIsTop(rows, id.value);
    TopIsLatest(db.tasks, repo, id, None);
    var li := VS.LatestIndex(repo.rows, TR.IdOf, TR.StampOf, id, None);
    if li.Some? {
      RebuildStored(rows[li.value], repo.rows[li.value], clock);
    }
  }

  /** `find_at_time` answers alike, up to the restamp. */
  lemma FindAtTimeAgrees(db: Db, repo: TR.Repo, id: TaskId, at: int, clock: int)
    requires Mirrors(db.tasks, repo) && TR.AllValid(repo)
    ensures TR.FindAtTime(repo, id, at).None? ==> FindAtTime(db, id, at, clock) == Ok(None)
    ensures TR.FindAtTime(repo, id, at).Some?
        ==> FindAtTime(db, id, at, clock) == Ok(Some(Reloaded(TR.FindAtTime(repo, id, at).value, clock)))
  {
    var rows := db.tasks.rows;
    TopIsLatest(db.tasks, repo, id, Some(at));
    var li := VS.LatestIndex(repo.rows, TR.IdOf, TR.StampOf, id, Some(at));
    if li.Some? {
      RebuildStored(rows[li.value], repo.rows[li.value], clock);
    }
  }

  /** Every view row is the stored form of a current version. */
  lemma ViewRowIsCurrent(t: Table<TaskData>, repo: TR.Repo, x: Row<TaskData>) returns (i: nat)
    requires Mirrors(t, repo)
    requires x in CurrentView(t.rows)
    ensures i < |repo.rows| && t.rows[i] == x
    ensures TR.FindById(repo, repo.rows[i].id) == Some(repo.rows[i])
  {
    var j :| 0 <= j < |t.rows| && t.rows[j] == x;
    var id := repo.rows[j].id;
    NumberedUnique(t.rows);
    TopIsLatest(t, repo, id, None);
    var li := VS.LatestIndex(repo.rows, TR.IdOf, TR.StampOf, id, None);
    assert VS.Selected(repo.rows[j], TR.IdOf, TR.StampOf, id, None);
    i := li.value;
    assert x.entity == id.value;
    ViewRowIsTopOf(t.rows, x);
  }

  /** Every current version has its stored form in the view. */
  lemma CurrentIsViewRow(t: Table<TaskData>, repo: TR.Repo, q: Task) returns (i: nat)
    requires Mirrors(t, repo)
    requires TR.FindById(repo, q.id) == Some(q)
    ensures i < |t.rows| && repo.rows[i] == q && t.rows[i] in CurrentView(t.rows)
  {
    TopIsLatest(t, repo, q.id, None);
    var li := VS.LatestIndex(repo.rows, TR.IdOf, TR.StampOf, q.id, None);
    i := li.value;
    NumberedUnique(t.rows);
    ViewRowIsTop(t.rows, q.id.value);
  }

  /** What a view query needs of its `WHERE` and its rebuild to list current versions: the
      `WHERE` says of the columns what `want` says of the task, and the rebuild gives back
      every stored version `want` admits. */
  ghost predicate Faithful(db: Db, repo: TR.Repo, keep: TaskData -> bool, want: Task -> bool,
                           build: Row<TaskData> -> Result<Task>, clock: int)
  {
    && Mirrors(db.tasks, repo)
    && TR.AllValid(repo)
    && (forall q :: keep(DataOf(q)) == want(q))
    && (forall i :: 0 <= i < |repo.rows| && want(repo.rows[i]) ==> build(db.tasks.rows[i]) == Ok(Reloaded(repo.rows[i], clock)))
  }

  /** Each row of such a query rebuilds to a current version `want` admits. */
  lemma ListingRowsAreCurrent(db: Db, repo: TR.Repo, keep: TaskData -> bool, want: Task -> bool,
                              build: Row<TaskData> -> Result<Task>, clock: int, k: int) returns (q: Task)
    requires Faithful(db, repo, keep, want, build, clock)
    requires 0 <= k < |Query(db, keep)|
    ensures TR.FindById(repo, q.id) == Some(q) && want(q)
    ensures build(Query(db, keep)[k]) == Ok(Reloaded(q, clock))
  {
    var v := Query(db, keep);
    assert v[k] in v;
    var i := ViewRowIsCurrent(db.tasks, repo, v[k]);
    assert keep(DataOf(repo.rows[i]));
    q := repo.rows[i];
  }

  /** Such a query succeeds and lists only current versions `want` admits. */
  lemma ListingSound(db: Db, repo: TR.Repo, keep: TaskData -> bool, want: Task -> bool,
                     build: Row<TaskData> -> Result<Task>, clock: int)
    requires Faithful(db, repo, keep, want, build, clock)
    ensures Collect(Query(db, keep), build).Ok?
    ensures forall p :: p in Collect(Query(db, keep), build).value
                    ==> exists q: Task :: TR.FindById(repo, q.id) == Some(q) && want(q) && p == Reloaded(q, clock)
  {
    var v := Query(db, keep);
    forall k | 0 <= k < |v|
      ensures build(v[k]).Ok?
    {
      var q := ListingRowsAreCurrent(db, repo, keep, want, build, clock, k);
    }
    var r := Collect(v, build);
    forall p | p in r.value
      ensures exists q: Task :: TR.FindById(repo, q.id) == Some(q) && want(q) && p == Reloaded(q, clock)
    {
      var k :| 0 <= k < |r.value| && r.value[k] == p;
      var q := ListingRowsAreCurrent(db, repo, keep, want, build, clock, k);
    }
  }

  /** The stored form of a current version `want` admits is a row of such a query, and
      rebuilds to the version restamped. */
  lemma ListedAt(db: Db, repo: TR.Repo, keep: TaskData -> bool, want: Task -> bool,
                 build: Row<TaskData> -> Result<Task>, clock: int, q: Task, i: nat) returns (k: nat)
    requires Faithful(db, repo, keep, want, build, clock)
    requires i < |db.tasks.rows| && repo.rows[i] == q && want(q)
    requires db.tasks.rows[i] in CurrentView(db.tasks.rows)
    ensures k < |Query(db, keep)| && build(Query(db, keep)[k]) == Ok(Reloaded(q, clock))
  {
    var row := db.tasks.rows[i];
    assert row.data == DataOf(q) by {
      assert Stores(row, repo.rows[i]);
    }
    assert keep(DataOf(q)) == want(q);
    assert row in Query(db, keep);
    k :| 0 <= k < |Query(db, keep)| && Query(db, keep)[k] == row;
  }

  /** Such a query lists every current version `want` admits. */
  lemma ListingComplete(db: Db, repo: TR.Repo, keep: TaskData -> bool, want: Task -> bool,
                        build: Row<TaskData> -> Result<Task>, clock: int, q: Task)
    requires Faithful(db, repo, keep, want, build, clock)
    requires Collect(Query(db, keep), build).Ok?
    requires TR.FindById(repo, q.id) == Some(q) && want(q)
    ensures Reloaded(q, clock) in Collect(Query(db, keep), build).value
  {
    var i := CurrentIsViewRow(db.tasks, repo, q);
    var k := ListedAt(db, repo, keep, want, build, clock, q, i);
    CollectHas(Query(db, keep), build, k);
  }

  /** Such a query lists exactly the current versions `want` admits, up to the restamp. */
  lemma ListingAgrees(db: Db, repo: TR.Repo, keep: TaskData -> bool, want: Task -> bool,
                      build: Row<TaskData> -> Result<Task>, clock: int)
    requires Faithful(db, repo, keep, want, build, clock)
    ensures Collect(Query(db, keep), build).Ok?
    ensures forall p :: p in Collect(Query(db, keep), build).value
                    <==> exists q: Task :: TR.FindById(repo, q.id) == Some(q) && want(q) && p == Reloaded(q, clock)
  {
    ListingSound(db, repo, keep, want, build, clock);
    forall q: Task | TR.FindById(repo, q.id) == Some(q) && want(q)
      ensures Reloaded(q, clock) in Collect(Query(db, keep), build).value
    {
      ListingComplete(db, repo, keep, want, build, clock, q);
    }
  }

  /** Every stored version rebuilds to itself, restamped if archived. */
  lemma RebuildsAll(db: Db, repo: TR.Repo, clock: int)
    requires Mirrors(db.tasks, repo) && TR.AllValid(repo)
    ensures forall i :: 0 <= i < |repo.rows| ==> Rebuilder(clock)(db.tasks.rows[i]) == Ok(Reloaded(repo.rows[i], clock))
  {
    forall i | 0 <= i < |repo.rows|
      ensures Rebuilder(clock)(db.tasks.rows[i]) == Ok(Reloaded(repo.rows[i], clock))
    {
      RebuildStored(db.tasks.rows[i], repo.rows[i], clock);
    }
  }

  /** Every stored active version rebuilds, without its status, to itself. */
  lemma RebuildsActive(db: Db, repo: TR.Repo)
    requires Mirrors(db.tasks, repo) && TR.AllValid(repo)
    ensures forall i :: 0 <= i < |repo.rows| && repo.rows[i].IsActive()
                    ==> ActiveRebuilder()(db.tasks.rows[i]) == Ok(Reloaded(repo.rows[i], 0))
  {
    forall i | 0 <= i < |repo.rows| && repo.rows[i].IsActive()
      ensures ActiveRebuilder()(db.tasks.rows[i]) == Ok(Reloaded(repo.rows[i], 0))
    {
      RebuildStored(db.tasks.rows[i], repo.rows[i], 0);
    }
  }

  /** `find_all` lists the current versions, up to the restamp. */
  lemma FindAllAgrees(db: Db, repo: TR.Repo, clock: int)
    requires Mirrors(db.tasks, repo) && TR.AllValid(repo)
    ensures FindAll(db, clock).Ok?
    ensures forall p :: p in FindAll(db, clock).value <==> exists q :: q in TR.FindAll(repo) && p == Reloaded(q, clock)
  {
    RebuildsAll(db, repo, clock);
    ListingAgrees(db, repo, Everything(), (q: Task) => true, Rebuilder(clock), clock);
  }

  /** `find_all_active` lists exactly the active current versions. */
  lemma FindAllActiveAgrees(db: Db, repo: TR.Repo)
    requires Mirrors(db.tasks, repo) && TR.AllValid(repo)
    ensures FindAllActive(db).Ok?
    ensures forall p :: p in FindAllActive(db).value <==> p in TR.FindAllActive(repo)
  {
    RebuildsActive(db, repo);
    ListingAgrees(db, repo, StatusIs("active"), (q: Task) => q.IsActive(), ActiveRebuilder(), 0);
  }

  /** `find_by_status` lists the current versions with that status, up to the restamp. */
  lemma FindByStatusAgrees(db: Db, repo: TR.Repo, status: Status, clock: int)
    requires Mirrors(db.tasks, repo) && TR.AllValid(repo)
    ensures FindByStatus(db, status, clock).Ok?
    ensures forall p :: p in FindByStatus(db, status, clock).value
                    <==> exists q :: q in TR.FindByStatus(repo, status) && p == Reloaded(q, clock)
  {
    RebuildsAll(db, repo, clock);
    forall q: Task
      ensures StatusIs(AsStr(status))(DataOf(q)) == (q.status == status)
    {
      AsStrInjective(q.status, status);
    }
    ListingAgrees(db, repo, StatusIs(AsStr(status)), (q: Task) => q.status == status, Rebuilder(clock), clock);
  }

  /** `find_by_name_prefix` lists the current versions whose name starts with the prefix, up
      to the restamp. */
  lemma FindByNamePrefixAgrees(db: Db, repo: TR.Repo, prefix: string, clock: int)
    requires Mirrors(db.tasks, repo) && TR.AllValid(repo)
    ensures FindByNamePrefix(db, prefix, clock).Ok?
    ensures forall p :: p in FindByNamePrefix(db, prefix, clock).value
                    <==> exists q :: q in TR.FindByNamePrefix(repo, prefix) && p == Reloaded(q, clock)
  {
    RebuildsAll(db, repo, clock);
    ListingAgrees(db, repo, NameStartsWith(prefix), (q: Task) => StartsWith(q.name, prefix), Rebuilder(clock), clock);
  }

  /** `find_by_project_id` lists the current versions in the project, up to the restamp. */
  lemma FindByProjectIdAgrees(db: Db, repo: TR.Repo, projectId: ProjectId, clock: int)
    requires Mirrors(db.tasks, repo) && TR.AllValid(repo)
    ensures FindByProjectId(db, projectId, clock).Ok?
    ensures forall p :: p in FindByProjectId(db, projectId, clock).value
                    <==> exists q :: q in TR.FindByProjectId(repo, projectId) && p == Reloaded(q, clock)
  {
    RebuildsAll(db, repo, clock);
    ListingAgrees(db, repo, InProject(projectId.value), (q: Task) => q.projectId == projectId, Rebuilder(clock), clock);
  }

  /** `find_active_by_project_id` lists exactly the active current versions in the
      project. */
  lemma FindActiveByProjectIdAgrees(db: Db, repo: TR.Repo, projectId: ProjectId)
    requires Mirrors(db.tasks, repo) && TR.AllValid(repo)
    ensures FindActiveByProjectId(db, projectId).Ok?
    ensures forall p :: p in FindActiveByProjectId(db, projectId).value <==> p in TR.FindActiveByProjectId(repo, projectId)
  {
    RebuildsActive(db, repo);
    ListingAgrees(db, repo, ActiveInProject(projectId.value), (q: Task) => q.projectId == projectId && q.IsActive(), ActiveRebuilder(), 0);
  }

  /** A view query lists each task at most once. */
  lemma QueryEntitiesDistinct(db: Db, keep: TaskData -> bool)
    requires UniqueVersions(db.tasks.rows)
    ensures forall i, j :: 0 <= i < j < |Query(db, keep)| ==> Query(db, keep)[i].entity != Query(db, keep)[j].entity
  {
    ViewOnePerEntity(db.tasks.rows);
    FilterKeepsEntitiesDistinct(TaskView(db), (r: Row<TaskData>) => keep(r.data));
  }

  /** The ids a listing holds. */
  function IdsOf(ts: seq<Task>): seq<TaskId> {
    Map(ts, TR.IdOf)
  }

  /** A successful `find_by_project_id` lists each task once. */
  lemma FindByProjectIdIdsDistinct(db: Db, projectId: ProjectId, clock: int)
    requires UniqueVersions(db.tasks.rows)
    requires FindByProjectId(db, projectId, clock).Ok?
    ensures Distinct(IdsOf(FindByProjectId(db, projectId, clock).value))
  {
    var v := Query(db, InProject(projectId.value));
    QueryEntitiesDistinct(db, InProject(projectId.value));
    RebuiltIdsDistinct(v, clock);
  }

  /** Rows of distinct entities rebuild into tasks with distinct ids. */
  lemma {:induction false} RebuiltIdsDistinct(v: seq<Row<TaskData>>, clock: int)
    requires forall i, j :: 0 <= i < j < |v| ==> v[i].entity != v[j].entity
    requires Collect(v, Rebuilder(clock)).Ok?
    ensures Distinct(IdsOf(Collect(v, Rebuilder(clock)).value))
  {
    var a := Collect(v, Rebuilder(clock)).value;
    forall i, j | 0 <= i < j < |a|
      ensures IdsOf(a)[i] != IdsOf(a)[j]
    {
      assert Rebuilder(clock)(v[i]).Ok? && Rebuilder(clock)(v[j]).Ok?;
      assert a[i].id.value == v[i].entity;
      assert a[j].id.value == v[j].entity;
    }
  }

  /** Two listings without repeated ids, one the other restamped, are equally long. */
  lemma ReloadedSameLength(a: seq<Task>, b: seq<Task>, clock: int)
    requires Distinct(IdsOf(a)) && Distinct(IdsOf(b))
    requires forall p :: p in a <==> exists q :: q in b && p == Reloaded(q, clock)
    ensures |a| == |b|
  {
    forall x
      ensures x in IdsOf(a) <==> x in IdsOf(b)
    {
      if x in IdsOf(a) {
        var k :| 0 <= k < |a| && IdsOf(a)[k] == x;
        assert a[k] in a;
        var q :| q in b && a[k] == Reloaded(q, clock);
        var j :| 0 <= j < |b| && b[j] == q;
        assert IdsOf(b)[j] == x;
      }
      if x in IdsOf(b) {
        var j :| 0 <= j < |b| && IdsOf(b)[j] == x;
        assert Reloaded(b[j], clock) in a;
        var k :| 0 <= k < |a| && a[k] == Reloaded(b[j], clock);
        assert IdsOf(a)[k] == x;
      }
    }
    SameElementsSameLength(IdsOf(a), IdsOf(b));
  }

  /** `count_by_project_id` counts alike: the archived-version restamp does not change how
      many tasks are listed. */
  lemma CountByProjectIdAgrees(db: Db, repo: TR.Repo, projectId: ProjectId, clock: int)
    requires Mirrors(db.tasks, repo) && TR.AllValid(repo)
    ensures CountByProjectId(db, projectId, clock) == Ok(TR.CountByProjectId(repo, projectId))
  {
    FindByProjectIdAgrees(db, repo, projectId, clock);
    NumberedUnique(db.tasks.rows);
    FindByProjectIdIdsDistinct(db, projectId, clock);
    var b := TR.FindByProjectId(repo, projectId);
    assert Distinct(IdsOf(b));
    ReloadedSameLength(FindByProjectId(db, projectId, clock).value, b, clock);
  }

  /** `find_by_project_id_ordered` lists the same tasks as the in-memory one, up to the
      restamp. */
  lemma FindByProjectIdOrderedAgrees(db: Db, repo: TR.Repo, projectId: ProjectId, clock: int)
    requires Mirrors(db.tasks, repo) && TR.AllValid(repo)
    ensures FindByProjectIdOrdered(db, projectId, clock).Ok?
    ensures forall p :: p in FindByProjectIdOrdered(db, projectId, clock).value
                    <==> exists q :: q in TR.FindByProjectIdOrdered(repo, projectId) && p == Reloaded(q, clock)
  {
    FindByProjectIdAgrees(db, repo, projectId, clock);
    var a := FindByProjectId(db, projectId, clock).value;
    var b := TR.FindByProjectId(repo, projectId);
    var sa := FindByProjectIdOrdered(db, projectId, clock).value;
    var sb := TR.FindByProjectIdOrdered(repo, projectId);
    assert forall p :: p in sa <==> p in a by {
      forall p ensures p in sa <==> p in a {
        assert p in sa <==> p in multiset(sa);
        assert p in a <==> p in multiset(a);
      }
    }
    assert forall q :: q in sb <==> q in b by {
      forall q ensures q in sb <==> q in b {
        assert q in sb <==> q in multiset(sb);
        assert q in b <==> q in multiset(b);
      }
    }
  }

  // ---------------------------------------------------------------- history

  /** The project id a stored row names; rows that satisfy the foreign key name a positive
      one. */
  function ProjectOf(v: int): (p: ProjectId)
    ensures v > 0 ==> p.value == v
  {
    if v > 0 then ProjectId(v) else ProjectId(1)
  }

  /** The task a stored row of `id` denotes, its stamp as stored. */
  function Mirror(id: TaskId): Row<TaskData> -> Task {
    (row: Row<TaskData>) => Task(id, ProjectOf(row.data.projectId), row.data.name,
                                 if row.data.status == "archived" then Archived else Active, row.effectiveAt)
  }

  function ReloadedAt(clock: int): Task -> Task {
    (t: Task) => Reloaded(t, clock)
  }

  /** The rows of a task, read back, are its in-memory versions in the same order. */
  lemma {:induction false} VersionsMirror(rows: seq<Row<TaskData>>, ts: seq<Task>, id: TaskId)
    requires Aligned(rows, ts)
    ensures Map(VS.VersionsOf(rows, EntityOf, id.value), Mirror(id)) == VS.VersionsOf(ts, TR.IdOf, id)
    decreases |rows|
  {
    if |rows| > 0 {
      assert Aligned(rows[1..], ts[1..]) by {
        forall i | 0 <= i < |rows[1..]|
          ensures Stores(rows[1..][i], ts[1..][i])
        {
          assert rows[1..][i] == rows[i + 1] && ts[1..][i] == ts[i + 1];
        }
      }
      VersionsMirror(rows[1..], ts[1..], id);
      var head := if EntityOf(rows[0]) == id.value then [rows[0]] else [];
      MapAppend(head, VS.VersionsOf(rows[1..], EntityOf, id.value), Mirror(id));
      if rows[0].entity == id.value {
        assert Stores(rows[0], ts[0]);
        assert Mirror(id)(rows[0]) == ts[0];
      }
    }
  }

  /** `ORDER BY effective_at` over a task's rows, read back, is the in-memory history. Rows
      with equal stamps are taken in save order, as the stable in-memory sort keeps them;
      SQLite leaves their order open, so for the program this holds up to that order. */
  lemma HistoryRows(db: Db, repo: TR.Repo, id: TaskId)
    requires Mirrors(db.tasks, repo)
    ensures Map(VS.History(db.tasks.rows, EntityOf, EffectiveAt, id.value), Mirror(id)) == TR.FindHistory(repo, id)
  {
    var rows := db.tasks.rows;
    VersionsMirror(rows, repo.rows, id);
    VS.StampLeIsTotalPreorder(EffectiveAt<TaskData>);
    VS.StampLeIsTotalPreorder(TR.StampOf);
    assert Reflects(Mirror(id), VS.StampLe(EffectiveAt<TaskData>), VS.StampLe(TR.StampOf)) by {
      forall a: Row<TaskData>, b: Row<TaskData>
        ensures VS.StampLe(EffectiveAt<TaskData>)(a, b) == VS.StampLe(TR.StampOf)(Mirror(id)(a), Mirror(id)(b))
      {
        assert TR.StampOf(Mirror(id)(a)) == EffectiveAt(a) && TR.StampOf(Mirror(id)(b)) == EffectiveAt(b);
      }
    }
    SortByMap(VS.VersionsOf(rows, EntityOf, id.value), Mirror(id), VS.StampLe(EffectiveAt<TaskData>), VS.StampLe(TR.StampOf));
  }

  /** A stored row of `id` rebuilds to the version it denotes, restamped if archived. */
  lemma RebuildMirrored(db: Db, repo: TR.Repo, id: TaskId, row: Row<TaskData>, clock: int)
    requires Mirrors(db.tasks, repo) && TR.AllValid(repo)
    requires row in db.tasks.rows && row.entity == id.value
    ensures RebuildAs(id, row, clock) == Ok(Reloaded(Mirror(id)(row), clock))
  {
    var j :| 0 <= j < |db.tasks.rows| && db.tasks.rows[j] == row;
    assert Stores(row, repo.rows[j]);
    assert Mirror(id)(row) == repo.rows[j];
    RebuildStored(row, repo.rows[j], clock);
  }

  /** `find_history` as written: the in-memory history with every archived version
      restamped with the clock, equal stamps in save order as in `HistoryRows`. */
  lemma HistoryAgrees(db: Db, repo: TR.Repo, id: TaskId, clock: int)
    requires Mirrors(db.tasks, repo) && TR.AllValid(repo)
    ensures FindHistory(db, id, clock) == Ok(Map(TR.FindHistory(repo, id), ReloadedAt(clock)))
  {
    var h := VS.History(db.tasks.rows, EntityOf, EffectiveAt, id.value);
    var g := (row: Row<TaskData>) => Reloaded(Mirror(id)(row), clock);
    forall k | 0 <= k < |h|
      ensures RebuilderAs(id, clock)(h[k]) == Ok(g(h[k]))
    {
      assert h[k] in h;
      RebuildMirrored(db, repo, id, h[k], clock);
    }
    CollectAllOk(h, RebuilderAs(id, clock), g);
    HistoryRows(db, repo, id);
    MapCompose(h, Mirror(id), ReloadedAt(clock), g);
  }

  /** The stamp-keeping history is exactly the in-memory history, ties as in `HistoryRows`. */
  lemma HistoryKeepingStampsAgrees(db: Db, repo: TR.Repo, id: TaskId)
    requires Mirrors(db.tasks, repo) && TR.AllValid(repo)
    ensures FindHistoryKeepingStamps(db, id) == Ok(TR.FindHistory(repo, id))
  {
    var h := VS.History(db.tasks.rows, EntityOf, EffectiveAt, id.value);
    forall k | 0 <= k < |h|
      ensures StampKeepingRebuilder(id)(h[k]) == Ok(Mirror(id)(h[k]))
    {
      assert h[k] in h;
      RebuildMirrored(db, repo, id, h[k], h[k].effectiveAt);
    }
    CollectAllOk(h, StampKeepingRebuilder(id), Mirror(id));
    HistoryRows(db, repo, id);
  }

  /** Task 1 of project 1, active at 10 and then archived at 20, in both stores. */
  const Opened := Task(TaskId(1), ProjectId(1), "T", Active, 10)
  const Closed := Task(TaskId(1), ProjectId(1), "T", Archived, 20)
  const ExampleRepo := TR.Repo([Opened, Closed], 2)
  const ExampleDb := Db(Table([1], []), Table([1], [Row(1, 1, DataOf(Opened), 10), Row(1, 2, DataOf(Closed), 20)]))

  lemma ExampleStores()
    ensures Mirrors(ExampleDb.tasks, ExampleRepo) && TR.AllValid(ExampleRepo)
  {
    var rows := ExampleDb.tasks.rows;
    assert rows[..0] == [] && rows[..1] == [rows[0]];
    assert [rows[0]][..0] == [];
    assert Numbered(rows);
    Text.TrimSpec("T");
  }

  lemma ExampleHistory()
    ensures TR.FindHistory(ExampleRepo, TaskId(1)) == [Opened, Closed]
  {
    var rows := ExampleRepo.rows;
    assert rows[1..] == [Closed];
    assert VS.VersionsOf(rows, TR.IdOf, TaskId(1)) == [Opened, Closed];
  }

  lemma ExampleReloaded()
    ensures Map([Opened, Closed], ReloadedAt(5)) == [Opened, Closed.(effectiveAt := 5)]
  {
    var m := Map([Opened, Closed], ReloadedAt(5));
    assert m[0] == Opened && m[1] == Closed.(effectiveAt := 5);
  }

  /** Read with the clock at 5, the task history as written places the archival at 5,
      before the version it followed. */
  lemma HistoryRestampsArchived()
    ensures FindHistory(ExampleDb, TaskId(1), 5) == Ok([Opened, Closed.(effectiveAt := 5)])
  {
    ExampleStores();
    ExampleHistory();
    HistoryAgrees(ExampleDb, ExampleRepo, TaskId(1), 5);
    ExampleReloaded();
  }

  /** The stamp-keeping task history reports the archival at 20. */
  lemma HistoryKeepsArchivedStamp()
    ensures FindHistoryKeepingStamps(ExampleDb, TaskId(1)) == Ok([Opened, Closed])
  {
    ExampleStores();
    ExampleHistory();
    HistoryKeepingStampsAgrees(ExampleDb, ExampleRepo, TaskId(1));
  }
}
