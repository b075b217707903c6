/** The SQLite project store next to the in-memory one. When both have taken the same saves,
    the tables hold the in-memory versions row for row, and every query answers alike, except
    that the SQLite store hands archived versions back restamped with the clock. */
module SqliteProjectMirror {
  import opened Base
  import opened Seqs
  import opened Statuses
  import opened ProjectIds
  import opened Projects
  import opened VersionTables
  import opened Database
  import opened SqliteProjectRepository
  import PR = ProjectRepository
  import VS = VersionStore
  import Names

  /** `row` is the stored form of version `p`. */
  predicate Stores(row: Row<ProjectData>, p: Project) {
    row.entity == p.id.value && row.data == DataOf(p) && row.effectiveAt == p.effectiveAt
  }

  predicate Aligned(rows: seq<Row<ProjectData>>, ps: seq<Project>) {
    |rows| == |ps| && forall i :: 0 <= i < |rows| ==> Stores(rows[i], ps[i])
  }

  /** The identifier table lists exactly the ids of the versions `ps`. */
  ghost predicate Lists(ids: seq<int>, ps: seq<Project>) {
    forall x :: x in ids <==> exists i :: 0 <= i < |ps| && ps[i].id.value == x
  }

  /** The tables hold the in-memory versions in save order, numbered per project, and the
      identifier table lists exactly the saved ids. */
  ghost predicate Mirrors(t: Table<ProjectData>, repo: PR.Repo) {
    Aligned(t.rows, repo.rows) && Numbered(t.rows) && Lists(t.ids, repo.rows)
  }

  lemma InitialMirrors()
    ensures Mirrors(Initial.projects, PR.Empty)
  {
  }

  lemma ListsAppend(ids: seq<int>, ids2: seq<int>, ps: seq<Project>, p: Project)
    requires Lists(ids, ps)
    requires forall x :: x in ids2 <==> x in ids || x == p.id.value
    ensures Lists(ids2, ps + [p])
  {
    var qs := ps + [p];
    forall x
      ensures x in ids2 <==> exists i :: 0 <= i < |qs| && qs[i].id.value == x
    {
      if x in ids && x != p.id.value {
        var i :| 0 <= i < |ps| && ps[i].id.value == x;
        assert qs[i] == ps[i];
      }
      if x == p.id.value {
        assert qs[|ps|] == p;
      }
      if x != p.id.value && exists i :: 0 <= i < |qs| && qs[i].id.value == x {
        var i :| 0 <= i < |qs| && qs[i].id.value == x;
        assert qs[i] == ps[i];
      }
    }
  }

  lemma AlignedAppend(rows: seq<Row<ProjectData>>, ps: seq<Project>, row: Row<ProjectData>, p: Project)
    requires Aligned(rows, ps) && Stores(row, p)
    ensures Aligned(rows + [row], ps + [p])
  {
  }

  /** Saving the same project to both stores keeps them in step. */
  lemma SaveMirrors(db: Db, repo: PR.Repo, p: Project)
    requires Mirrors(db.projects, repo)
    ensures Mirrors(Save(db, p).0.projects, PR.Save(repo, p))
  {
    var rows := db.projects.rows;
    var t := Save(db, p).0.projects;
    var row := Row(p.id.value, NextVersion(rows, p.id.value), DataOf(p), p.effectiveAt);
    assert t.rows == rows + [row] by {
      assert t.rows == t.rows[..|rows|] + [t.rows[|rows|]];
    }
    AppendKeepsNumbered(rows, p.id.value, DataOf(p), p.effectiveAt);
    AlignedAppend(rows, repo.rows, row, p);
    ListsAppend(db.projects.ids, t.ids, repo.rows, p);
    assert PR.Save(repo, p).rows == repo.rows + [p];
  }

  /** `exists` answers alike. */
  lemma ExistsAgrees(db: Db, repo: PR.Repo, id: ProjectId)
    requires Mirrors(db.projects, repo)
    ensures Exists(db, id) <==> PR.Exists(repo, id)
  {
  }

  /** The SQLite `next_id` always yields an id, and one that no saved project has. */
  lemma NextIdIsFresh(db: Db, repo: PR.Repo)
    requires Mirrors(db.projects, repo)
    ensures SqliteProjectRepository.NextId(db).Ok?
    ensures !PR.Exists(repo, SqliteProjectRepository.NextId(db).value)
  {
    forall x | x in db.projects.ids
      ensures x > 0
    {
      var i :| 0 <= i < |repo.rows| && repo.rows[i].id.value == x;
    }
  }

  /** A stored valid version rebuilds to itself, restamped with the clock if archived. */
  lemma RebuildStored(row: Row<ProjectData>, p: Project, clock: int)
    requires Stores(row, p) && Valid(p)
    ensures Rebuild(row, clock) == Ok(Reloaded(p, clock))
    ensures RebuildAs(p.id, row, clock) == Ok(Reloaded(p, clock))
    ensures p.IsActive() ==> RebuildActive(row) == Ok(p)
  {
    Names.StoredRevalidates(ProjectKind, p.name);
  }

  /** The row `ORDER BY effective_at DESC, version DESC` ranks first is the stored form of
      the version `max_by_key` picks. */
  lemma TopIsLatest(t: Table<ProjectData>, repo: PR.Repo, id: ProjectId, bound: Option<int>)
    requires Mirrors(t, repo)
    ensures var li := VS.LatestIndex(repo.rows, PR.IdOf, PR.StampOf, id, bound);
            TopWhere(t.rows, Within(id.value, bound)) == if li.None? then None else Some(t.rows[li.value])
  {
    var li := VS.LatestIndex(repo.rows, PR.IdOf, PR.StampOf, id, bound);
    assert forall j :: 0 <= j < |t.rows| ==>
      (VS.Selected(t.rows[j], EntityOf, EffectiveAt, id.value, bound) <==> VS.Selected(repo.rows[j], PR.IdOf, PR.StampOf, id, bound));
    if li.Some? {
      assert VS.IsLatest(t.rows, EntityOf, EffectiveAt, id.value, bound, li.value);
      LatestIsTop(t.rows, id.value, bound, li.value);
    } else {
      forall x | x in t.rows
        ensures !Within<ProjectData>(id.value, bound)(x)
      {
        var j :| 0 <= j < |t.rows| && t.rows[j] == x;
        assert !VS.Selected(repo.rows[j], PR.IdOf, PR.StampOf, id, bound);
      }
    }
  }

  /** `find_by_id` answers alike, up to the restamp. */
  lemma FindByIdAgrees(db: Db, repo: PR.Repo, id: ProjectId, clock: int)
    requires Mirrors(db.projects, repo) && PR.AllValid(repo)
    ensures PR.FindById(repo, id).None? ==> FindById(db, id, clock) == Ok(None)
    ensures PR.FindById(repo, id).Some? ==> FindById(db, id, clock) == Ok(Some(Reloaded(PR.FindById(repo, id).value, clock)))
  {
    var rows := db.projects.rows;
    NumberedUnique(rows);
    ViewRowIsTop(rows, id.value);
    TopIsLatest(db.projects, repo, id, None);
    var li := VS.LatestIndex(repo.rows, PR.IdOf, PR.StampOf, id, None);
    if li.Some? {
      RebuildStored(rows[li.value], repo.rows[li.value], clock);
    }
  }

  /** `find_at_time` answers alike, up to the restamp. */
  lemma FindAtTimeAgrees(db: Db, repo: PR.Repo, id: ProjectId, at: int, clock: int)
    requires Mirrors(db.projects, repo) && PR.AllValid(repo)
    ensures PR.FindAtTime(repo, id, at).None? ==> FindAtTime(db, id, at, clock) == Ok(None)
    ensures PR.FindAtTime(repo, id, at).Some?
        ==> FindAtTime(db, id, at, clock) == Ok(Some(Reloaded(PR.FindAtTime(repo, id, at).value, clock)))
  {
    var rows := db.projects.rows;
    TopIsLatest(db.projects, repo, id, Some(at));
    var li := VS.LatestIndex(repo.rows, PR.IdOf, PR.StampOf, id, Some(at));
    if li.Some? {
      RebuildStored(rows[li.value], repo.rows[li.value], clock);
    }
  }

  /** Every view row is the stored form of a current version. */
  lemma ViewRowIsCurrent(t: Table<ProjectData>, repo: PR.Repo, x: Row<ProjectData>) returns (i: nat)
    requires Mirrors(t, repo)
    requires x in CurrentView(t.rows)
    ensures i < |repo.rows| && t.rows[i] == x
    ensures PR.FindById(repo, repo.rows[i].id) == Some(repo.rows[i])
  {
    var j :| 0 <= j < |t.rows| && t.rows[j] == x;
    var id := repo.rows[j].id;
    NumberedUnique(t.rows);
    TopIsLatest(t, repo, id, None);
    var li := VS.LatestIndex(repo.rows, PR.IdOf, PR.StampOf, id, None);
    assert VS.Selected(repo.rows[j], PR.IdOf, PR.StampOf, id, None);
    i := li.value;
    assert x.entity == id.value;
    ViewRowIsTopOf(t.rows, x);
  }

  /** Every current version has its stored form in the view. */
  lemma CurrentIsViewRow(t: Table<ProjectData>, repo: PR.Repo, q: Project) returns (i: nat)
    requires Mirrors(t, repo)
    requires PR.FindById(repo, q.id) == Some(q)
    ensures i < |t.rows| && repo.rows[i] == q && t.rows[i] in CurrentView(t.rows)
  {
    TopIsLatest(t, repo, q.id, None);
    var li := VS.LatestIndex(repo.rows, PR.IdOf, PR.StampOf, q.id, None);
    i := li.value;
    NumberedUnique(t.rows);
    ViewRowIsTop(t.rows, q.id.value);
  }

  /** What a view query needs of its `WHERE` and its rebuild to list current versions: the
      `WHERE` says of the columns what `want` says of the project, and the rebuild gives back
      every stored version `want` admits. */
  ghost predicate Faithful(db: Db, repo: PR.Repo, keep: ProjectData -> bool, want: Project -> bool,
                           build: Row<ProjectData> -> Result<Project>, clock: int)
  {
    && Mirrors(db.projects, repo)
    && PR.AllValid(repo)
    && (forall q :: keep(DataOf(q)) == want(q))
    && (forall i :: 0 <= i < |repo.rows| && want(repo.rows[i]) ==> build(db.projects.rows[i]) == Ok(Reloaded(repo.rows[i], clock)))
  }

  /** Each row of such a query rebuilds to a current version `want` admits. */
  lemma ListingRowsAreCurrent(db: Db, repo: PR.Repo, keep: ProjectData -> bool, want: Project -> bool,
                              build: Row<ProjectData> -> Result<Project>, clock: int, k: int) returns (q: Project)
    requires Faithful(db, repo, keep, want, build, clock)
    requires 0 <= k < |Query(db, keep)|
    ensures PR.FindById(repo, q.id) == Some(q) && want(q)
    ensures build(Query(db, keep)[k]) == Ok(Reloaded(q, clock))
  {
    var v := Query(db, keep);
    assert v[k] in v;
    var i := ViewRowIsCurrent(db.projects, repo, v[k]);
    assert keep(DataOf(repo.rows[i]));
    q := repo.rows[i];
  }

  /** Such a query succeeds and lists only current versions `want` admits. */
  lemma ListingSound(db: Db, repo: PR.Repo, keep: ProjectData -> bool, want: Project -> bool,
                     build: Row<ProjectData> -> Result<Project>, clock: int)
    requires Faithful(db, repo, keep, want, build, clock)
    ensures Collect(Query(db, keep), build).Ok?
    ensures forall p :: p in Collect(Query(db, keep), build).value
                    ==> exists q: Project :: PR.FindById(repo, q.id) == Some(q) && want(q) && p == Reloaded(q, clock)
  {
    var v := Query(db, keep);
    forall k | 0 <= k < |v|
      ensures build(v[k]).Ok?
    {
      var q := ListingRowsAreCurrent(db, repo, keep, want, build, clock, k);
    }
    var r := Collect(v, build);
    forall p | p in r.value
      ensures exists q: Project :: PR.FindById(repo, q.id) == Some(q) && want(q) && p == Reloaded(q, clock)
    {
      var k :| 0 <= k < |r.value| && r.value[k] == p;
      var q := ListingRowsAreCurrent(db, repo, keep, want, build, clock, k);
    }
  }

  /** The stored form of a current version `want` admits is a row of such a query, and
      rebuilds to the version restamped. */
  lemma ListedAt(db: Db, repo: PR.Repo, keep: ProjectData -> bool, want: Project -> bool,
                 build: Row<ProjectData> -> Result<Project>, clock: int, q: Project, i: nat) returns (k: nat)
    requires Faithful(db, repo, keep, want, build, clock)
    requires i < |db.projects.rows| && repo.rows[i] == q && want(q)
    requires db.projects.rows[i] in CurrentView(db.projects.rows)
    ensures k < |Query(db, keep)| && build(Query(db, keep)[k]) == Ok(Reloaded(q, clock))
  {
    var row := db.projects.rows[i];
    assert row.data == DataOf(q) by {
      assert Stores(row, repo.rows[i]);
    }
    assert keep(DataOf(q)) == want(q);
    assert row in Query(db, keep);
    k :| 0 <= k < |Query(db, keep)| && Query(db, keep)[k] == row;
  }

  /** Such a query lists every current version `want` admits. */
  lemma ListingComplete(db: Db, repo: PR.Repo, keep: ProjectData -> bool, want: Project -> bool,
                        build: Row<ProjectData> -> Result<Project>, clock: int, q: Project)
    requires Faithful(db, repo, keep, want, build, clock)
    requires Collect(Query(db, keep), build).Ok?
    requires PR.FindById(repo, q.id) == Some(q) && want(q)
    ensures Reloaded(q, clock) in Collect(Query(db, keep), build).value
  {
    var i := CurrentIsViewRow(db.projects, repo, q);
    var k := ListedAt(db, repo, keep, want, build, clock, q, i);
    CollectHas(Query(db, keep), build, k);
  }

  /** Such a query lists exactly the current versions `want` admits, up to the restamp. */
  lemma ListingAgrees(db: Db, repo: PR.Repo, keep: ProjectData -> bool, want: Project -> bool,
                      build: Row<ProjectData> -> Result<Project>, clock: int)
    requires Faithful(db, repo, keep, want, build, clock)
    ensures Collect(Query(db, keep), build).Ok?
    ensures forall p :: p in Collect(Query(db, keep), build).value
                    <==> exists q: Project :: PR.FindById(repo, q.id) == Some(q) && want(q) && p == Reloaded(q, clock)
  {
    ListingSound(db, repo, keep, want, build, clock);
    forall q: Project | PR.FindById(repo, q.id) == Some(q) && want(q)
      ensures Reloaded(q, clock) in Collect(Query(db, keep), build).value
    {
      ListingComplete(db, repo, keep, want, build, clock, q);
    }
  }

  /** `find_all` lists the current versions, up to the restamp. */
  lemma FindAllAgrees(db: Db, repo: PR.Repo, clock: int)
    requires Mirrors(db.projects, repo) && PR.AllValid(repo)
    ensures FindAll(db, clock).Ok?
    ensures forall p :: p in FindAll(db, clock).value <==> exists q :: q in PR.FindAll(repo) && p == Reloaded(q, clock)
  {
    forall i | 0 <= i < |repo.rows|
      ensures Rebuilder(clock)(db.projects.rows[i]) == Ok(Reloaded(repo.rows[i], clock))
    {
      RebuildStored(db.projects.rows[i], repo.rows[i], clock);
    }
    ListingAgrees(db, repo, Everything(), (q: Project) => true, Rebuilder(clock), clock);
  }

  /** `find_all_active` lists exactly the active current versions. */
  lemma FindAllActiveAgrees(db: Db, repo: PR.Repo)
    requires Mirrors(db.projects, repo) && PR.AllValid(repo)
    ensures FindAllActive(db).Ok?
    ensures forall p :: p in FindAllActive(db).value <==> p in PR.FindAllActive(repo)
  {
    forall i | 0 <= i < |repo.rows| && repo.rows[i].IsActive()
      ensures ActiveRebuilder()(db.projects.rows[i]) == Ok(Reloaded(repo.rows[i], 0))
    {
      RebuildStored(db.projects.rows[i], repo.rows[i], 0);
    }
    ListingAgrees(db, repo, StatusIs("active"), (q: Project) => q.IsActive(), ActiveRebuilder(), 0);
  }

  /** `find_by_status` lists the current versions with that status, up to the restamp. */
  lemma FindByStatusAgrees(db: Db, repo: PR.Repo, status: Status, clock: int)
    requires Mirrors(db.projects, repo) && PR.AllValid(repo)
    ensures FindByStatus(db, status, clock).Ok?
    ensures forall p :: p in FindByStatus(db, status, clock).value
                    <==> exists q :: q in PR.FindByStatus(repo, status) && p == Reloaded(q, clock)
  {
    forall i | 0 <= i < |repo.rows|
      ensures Rebuilder(clock)(db.projects.rows[i]) == Ok(Reloaded(repo.rows[i], clock))
    {
      RebuildStored(db.projects.rows[i], repo.rows[i], clock);
    }
    forall q: Project
      ensures StatusIs(AsStr(status))(DataOf(q)) == (q.status == status)
    {
      AsStrInjective(q.status, status);
    }
    ListingAgrees(db, repo, StatusIs(AsStr(status)), (q: Project) => q.status == status, Rebuilder(clock), clock);
  }

  /** `find_by_name_prefix` lists the current versions whose name starts with the prefix, up
      to the restamp. */
  lemma FindByNamePrefixAgrees(db: Db, repo: PR.Repo, prefix: string, clock: int)
    requires Mirrors(db.projects, repo) && PR.AllValid(repo)
    ensures FindByNamePrefix(db, prefix, clock).Ok?
    ensures forall p :: p in FindByNamePrefix(db, prefix, clock).value
                    <==> exists q :: q in PR.FindByNamePrefix(repo, prefix) && p == Reloaded(q, clock)
  {
    forall i | 0 <= i < |repo.rows|
      ensures Rebuilder(clock)(db.projects.rows[i]) == Ok(Reloaded(repo.rows[i], clock))
    {
      RebuildStored(db.projects.rows[i], repo.rows[i], clock);
    }
    ListingAgrees(db, repo, NameStartsWith(prefix), (q: Project) => Text.StartsWith(q.name, prefix), Rebuilder(clock), clock);
  }

  // ---------------------------------------------------------------- history

  /** The project a stored row of `id` denotes, its stamp as stored. */
  function Mirror(id: ProjectId): Row<ProjectData> -> Project {
    (row: Row<ProjectData>) => Project(id, row.data.name, if row.data.status == "archived" then Archived else Active, row.effectiveAt)
  }

  function ReloadedAt(clock: int): Project -> Project {
    (p: Project) => Reloaded(p, clock)
  }

  /** The rows of a project, read back, are its in-memory versions in the same order. */
  lemma {:induction false} VersionsMirror(rows: seq<Row<ProjectData>>, ps: seq<Project>, id: ProjectId)
    requires Aligned(rows, ps)
    ensures Map(VS.VersionsOf(rows, EntityOf, id.value), Mirror(id)) == VS.VersionsOf(ps, PR.IdOf, id)
    decreases |rows|
  {
    if |rows| > 0 {
      assert Aligned(rows[1..], ps[1..]) by {
        forall i | 0 <= i < |rows[1..]|
          ensures Stores(rows[1..][i], ps[1..][i])
        {
          assert rows[1..][i] == rows[i + 1] && ps[1..][i] == ps[i + 1];
        }
      }
      VersionsMirror(rows[1..], ps[1..], id);
      var head := if EntityOf(rows[0]) == id.value then [rows[0]] else [];
      MapAppend(head, VS.VersionsOf(rows[1..], EntityOf, id.value), Mirror(id));
      if rows[0].entity == id.value {
        assert Stores(rows[0], ps[0]);
        assert Mirror(id)(rows[0]) == ps[0];
      }
    }
  }

  /** `ORDER BY effective_at` over a project's rows, read back, is the in-memory history. Rows
      with equal stamps are taken in save order, as the stable in-memory sort keeps them;
      SQLite leaves their order open, so for the program this holds up to that order. */
  lemma HistoryRows(db: Db, repo: PR.Repo, id: ProjectId)
    requires Mirrors(db.projects, repo)
    ensures Map(VS.History(db.projects.rows, EntityOf, EffectiveAt, id.value), Mirror(id)) == PR.FindHistory(repo, id)
  {
    var rows := db.projects.rows;
    VersionsMirror(rows, repo.rows, id);
    VS.StampLeIsTotalPreorder(EffectiveAt<ProjectData>);
    VS.StampLeIsTotalPreorder(PR.StampOf);
    assert Reflects(Mirror(id), VS.StampLe(EffectiveAt<ProjectData>), VS.StampLe(PR.StampOf)) by {
      forall a: Row<ProjectData>, b: Row<ProjectData>
        ensures VS.StampLe(EffectiveAt<ProjectData>)(a, b) == VS.StampLe(PR.StampOf)(Mirror(id)(a), Mirror(id)(b))
      {
        assert PR.StampOf(Mirror(id)(a)) == EffectiveAt(a) && PR.StampOf(Mirror(id)(b)) == EffectiveAt(b);
      }
    }
    SortByMap(VS.VersionsOf(rows, EntityOf, id.value), Mirror(id), VS.StampLe(EffectiveAt<ProjectData>), VS.StampLe(PR.StampOf));
  }

  /** A stored row of `id` rebuilds to the version it denotes, restamped if archived. */
  lemma RebuildMirrored(db: Db, repo: PR.Repo, id: ProjectId, row: Row<ProjectData>, clock: int)
    requires Mirrors(db.projects, repo) && PR.AllValid(repo)
    requires row in db.projects.rows && row.entity == id.value
    ensures RebuildAs(id, row, clock) == Ok(Reloaded(Mirror(id)(row), clock))
  {
    var j :| 0 <= j < |db.projects.rows| && db.projects.rows[j] == row;
    assert Stores(row, repo.rows[j]);
    assert Mirror(id)(row) == repo.rows[j];
    RebuildStored(row, repo.rows[j], clock);
  }

  /** `find_history` as written: the in-memory history with every archived version
      restamped with the clock, equal stamps in save order as in `HistoryRows`. */
  lemma HistoryAgrees(db: Db, repo: PR.Repo, id: ProjectId, clock: int)
    requires Mirrors(db.projects, repo) && PR.AllValid(repo)
    ensures FindHistory(db, id, clock) == Ok(Map(PR.FindHistory(repo, id), ReloadedAt(clock)))
  {
    var h := VS.History(db.projects.rows, EntityOf, EffectiveAt, id.value);
    var g := (row: Row<ProjectData>) => Reloaded(Mirror(id)(row), clock);
    forall k | 0 <= k < |h|
      ensures RebuilderAs(id, clock)(h[k]) == Ok(g(h[k]))
    {
      assert h[k] in h;
      RebuildMirrored(db, repo, id, h[k], clock);
    }
    CollectAllOk(h, RebuilderAs(id, clock), g);
    HistoryRows(db, repo, id);
    MapCompose(h, Mirror(id), ReloadedAt(clock), g);
  }

  /** The stamp-keeping history is exactly the in-memory history, ties as in `HistoryRows`. */
  lemma HistoryKeepingStampsAgrees(db: Db, repo: PR.Repo, id: ProjectId)
    requires Mirrors(db.projects, repo) && PR.AllValid(repo)
    ensures FindHistoryKeepingStamps(db, id) == Ok(PR.FindHistory(repo, id))
  {
    var h := VS.History(db.projects.rows, EntityOf, EffectiveAt, id.value);
    forall k | 0 <= k < |h|
      ensures StampKeepingRebuilder(id)(h[k]) == Ok(Mirror(id)(h[k]))
    {
      assert h[k] in h;
      RebuildMirrored(db, repo, id, h[k], h[k].effectiveAt);
    }
    CollectAllOk(h, StampKeepingRebuilder(id), Mirror(id));
    HistoryRows(db, repo, id);
  }

  /** Project 1, active at 10 and then archived at 20, in both stores. */
  const Opened := Project(ProjectId(1), "A", Active, 10)
  const Closed := Project(ProjectId(1), "A", Archived, 20)
  const ExampleRepo := PR.Repo([Opened, Closed], 2)
  const ExampleDb := Db(Table([1], [Row(1, 1, DataOf(Opened), 10), Row(1, 2, DataOf(Closed), 20)]), Table([], []))

  lemma ExampleStores()
    ensures Mirrors(ExampleDb.projects, ExampleRepo) && PR.AllValid(ExampleRepo)
  {
    var rows := ExampleDb.projects.rows;
    assert rows[..0] == [] && rows[..1] == [rows[0]];
    assert [rows[0]][..0] == [];
    assert Numbered(rows);
    Text.TrimSpec("A");
  }

  lemma ExampleHistory()
    ensures PR.FindHistory(ExampleRepo, ProjectId(1)) == [Opened, Closed]
  {
    var rows := ExampleRepo.rows;
    assert rows[1..] == [Closed];
    assert VS.VersionsOf(rows, PR.IdOf, ProjectId(1)) == [Opened, Closed];
  }

  /** Read with the clock at 5, the history as written places the archival at 5, before the
      version it followed. */
  lemma HistoryRestampsArchived()
    ensures FindHistory(ExampleDb, ProjectId(1), 5) == Ok([Opened, Closed.(effectiveAt := 5)])
  {
    ExampleStores();
    ExampleHistory();
    HistoryAgrees(ExampleDb, ExampleRepo, ProjectId(1), 5);
    ExampleReloaded();
  }

  lemma ExampleReloaded()
    ensures Map([Opened, Closed], ReloadedAt(5)) == [Opened, Closed.(effectiveAt := 5)]
  {
    var m := Map([Opened, Closed], ReloadedAt(5));
    assert m[0] == Opened && m[1] == Closed.(effectiveAt := 5);
  }

  /** The stamp-keeping history reports the archival at 20. */
  lemma HistoryKeepsArchivedStamp()
    ensures FindHistoryKeepingStamps(ExampleDb, ProjectId(1)) == Ok([Opened, Closed])
  {
    ExampleStores();
    ExampleHistory();
    HistoryKeepingStampsAgrees(ExampleDb, ExampleRepo, ProjectId(1));
  }
}
