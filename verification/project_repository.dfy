/** The in-memory `ProjectRepository`: every saved version of every project, and an id
    counter that starts at 1. */
module ProjectRepository {
  import opened Base
  import opened Text
  import opened Statuses
  import opened ProjectIds
  import opened Projects
  import VS = VersionStore

  /** `rows` are the saved versions in save order; `counter` is the next id to hand out. */
  datatype Repo = Repo(rows: seq<Project>, counter: int)

  /** `InMemoryProjectRepository::new`. */
  const Empty := Repo([], 1)

  function IdOf(p: Project): ProjectId {
    p.id
  }

  function StampOf(p: Project): int {
    p.effectiveAt
  }

  /** `exists`: some version of the project was saved. */
  predicate Exists(repo: Repo, id: ProjectId) {
    exists i :: 0 <= i < |repo.rows| && repo.rows[i].id == id
  }

  /** `find_by_id`: the version with the latest effective time, the last saved among
      versions sharing it. */
  function FindById(repo: Repo, id: ProjectId): (r: Option<Project>)
    ensures r.None? <==> !Exists(repo, id)
    ensures r.Some? ==> r.value in repo.rows && r.value.id == id
    ensures r.Some? ==> forall q :: q in repo.rows && q.id == id ==> q.effectiveAt <= r.value.effectiveAt
    ensures r.Some? ==> exists i :: VS.IsLatest(repo.rows, IdOf, StampOf, id, None, i) && repo.rows[i] == r.value
  {
    VS.Current(repo.rows, IdOf, StampOf, id)
  }

  /** `save`: appends a version. The saved version becomes current when no version of its
      project is stamped later, and no other project is affected. */
  function Save(repo: Repo, p: Project): (r: Repo)
    ensures r.counter == repo.counter
    ensures Exists(r, p.id)
    ensures (forall q :: q in repo.rows && q.id == p.id ==> q.effectiveAt <= p.effectiveAt) ==> FindById(r, p.id) == Some(p)
    ensures forall id :: id != p.id ==> FindById(r, id) == FindById(repo, id)
    ensures forall id :: Exists(r, id) <==> Exists(repo, id) || id == p.id
  {
    AppendBecomesCurrent(repo, p);
    AppendKeepsOthers(repo, p);
    AppendExists(repo, p);
    Repo(repo.rows + [p], repo.counter)
  }

  lemma AppendBecomesCurrent(repo: Repo, p: Project)
    ensures (forall q :: q in repo.rows && q.id == p.id ==> q.effectiveAt <= p.effectiveAt)
        ==> FindById(Repo(repo.rows + [p], repo.counter), p.id) == Some(p)
  {
    if forall q :: q in repo.rows && q.id == p.id ==> q.effectiveAt <= p.effectiveAt {
      VS.SaveBecomesCurrent(repo.rows, p, IdOf, StampOf);
    }
  }

  lemma AppendKeepsOthers(repo: Repo, p: Project)
    ensures forall id :: id != p.id ==> FindById(Repo(repo.rows + [p], repo.counter), id) == FindById(repo, id)
  {
    forall id | id != p.id
      ensures FindById(Repo(repo.rows + [p], repo.counter), id) == FindById(repo, id)
    {
      VS.SaveOtherKey(repo.rows, p, IdOf, StampOf, id, None);
    }
  }

  lemma AppendExists(repo: Repo, p: Project)
    ensures forall id :: Exists(Repo(repo.rows + [p], repo.counter), id) <==> Exists(repo, id) || id == p.id
  {
    var rows := repo.rows + [p];
    assert rows[|repo.rows|] == p;
    assert forall i :: 0 <= i < |repo.rows| ==> rows[i] == repo.rows[i];
  }

  /** Saving appends exactly one version to the project's history. */
  lemma SaveExtendsHistory(repo: Repo, p: Project)
    ensures multiset(FindHistory(Save(repo, p), p.id)) == multiset(FindHistory(repo, p.id)) + multiset{p}
  {
    VS.SaveAppendsVersion(repo.rows, p, IdOf, p.id);
  }

  /** `find_all_active`: the current version of every project whose current version is
      active, one per project. */
  function FindAllActive(repo: Repo): (r: seq<Project>)
    ensures forall p :: p in r <==> FindById(repo, p.id) == Some(p) && p.IsActive()
    ensures forall i, j :: 0 <= i < j < |r| ==> r[i].id != r[j].id
  {
    VS.CurrentWhere(repo.rows, IdOf, StampOf, (p: Project) => p.IsActive())
  }

  /** `find_all`: the current version of every project, one per project. */
  function FindAll(repo: Repo): (r: seq<Project>)
    ensures forall p :: p in r <==> FindById(repo, p.id) == Some(p)
    ensures forall i, j :: 0 <= i < j < |r| ==> r[i].id != r[j].id
  {
    VS.CurrentWhere(repo.rows, IdOf, StampOf, (p: Project) => true)
  }

  /** `find_by_status`. */
  function FindByStatus(repo: Repo, status: Status): (r: seq<Project>)
    ensures forall p :: p in r <==> FindById(repo, p.id) == Some(p) && p.status == status
    ensures forall i, j :: 0 <= i < j < |r| ==> r[i].id != r[j].id
  {
    VS.CurrentWhere(repo.rows, IdOf, StampOf, (p: Project) => p.status == status)
  }

  /** `find_by_name_prefix`: `starts_with` on the current name. */
  function FindByNamePrefix(repo: Repo, prefix: string): (r: seq<Project>)
    ensures forall p :: p in r <==> FindById(repo, p.id) == Some(p) && StartsWith(p.name, prefix)
    ensures forall i, j :: 0 <= i < j < |r| ==> r[i].id != r[j].id
  {
    VS.CurrentWhere(repo.rows, IdOf, StampOf, (p: Project) => StartsWith(p.name, prefix))
  }

  /** `next_id`: hands out the counter and advances it, even when the value is not a valid
      id. */
  function NextId(repo: Repo): (r: (Repo, Result<ProjectId>))
    ensures r.0.rows == repo.rows && r.0.counter == repo.counter + 1
    ensures r.1.Ok? <==> repo.counter > 0
    ensures r.1.Ok? ==> r.1.value.value == repo.counter
  {
    (Repo(repo.rows, repo.counter + 1), ProjectIds.New(repo.counter))
  }

  /** `find_history`: every saved version of the project, ordered by effective time, with
      versions of equal time in save order. */
  function FindHistory(repo: Repo, id: ProjectId): (r: seq<Project>)
    ensures multiset(r) == multiset(VS.VersionsOf(repo.rows, IdOf, id))
    ensures forall q :: q in r <==> q in repo.rows && q.id == id
    ensures forall i, j :: 0 <= i < j < |r| ==> r[i].effectiveAt <= r[j].effectiveAt
    ensures !Exists(repo, id) ==> r == []
  {
    VS.History(repo.rows, IdOf, StampOf, id)
  }

  /** `find_at_time`: the version that was current at `at`. */
  function FindAtTime(repo: Repo, id: ProjectId, at: int): (r: Option<Project>)
    ensures r.None? <==> forall q :: q in repo.rows && q.id == id ==> q.effectiveAt > at
    ensures r.Some? ==> r.value in repo.rows && r.value.id == id && r.value.effectiveAt <= at
    ensures r.Some? ==> forall q :: q in repo.rows && q.id == id && q.effectiveAt <= at ==> q.effectiveAt <= r.value.effectiveAt
  {
    VS.AtTime(repo.rows, IdOf, StampOf, id, at)
  }

  /** Every stored id is below the counter: what makes `next_id` hand out fresh ids when all
      saved projects got their id from it. */
  predicate CounterAhead(repo: Repo) {
    repo.counter >= 1 && forall i :: 0 <= i < |repo.rows| ==> repo.rows[i].id.value < repo.counter
  }

  /** `next_id` then yields an id no saved project has, and keeps the counter ahead. */
  lemma NextIdIsFresh(repo: Repo)
    requires CounterAhead(repo)
    ensures NextId(repo).1.Ok?
    ensures !Exists(repo, NextId(repo).1.value)
    ensures CounterAhead(NextId(repo).0)
  {
  }

  lemma SaveKeepsCounterAhead(repo: Repo, p: Project)
    requires CounterAhead(repo)
    requires p.id.value < repo.counter
    ensures CounterAhead(Save(repo, p))
  {
  }

  /** Versions of a project in the repository all satisfy the project invariant. */
  predicate AllValid(repo: Repo) {
    forall i :: 0 <= i < |repo.rows| ==> Valid(repo.rows[i])
  }
}
