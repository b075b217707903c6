/** The in-memory `TaskRepository`: every saved version of every task, and an id
    counter that starts at 1. */
module TaskRepository {
  import opened Base
  import opened Text
  import opened Statuses
  import opened ProjectIds
  import opened TaskIds
  import Seqs
  import opened Tasks
  import VS = VersionStore

  /** `rows` are the saved versions in save order; `counter` is the next id to hand out. */
  datatype Repo = Repo(rows: seq<Task>, counter: int)

  /** `InMemoryTaskRepository::new`. */
  const Empty := Repo([], 1)

  function IdOf(t: Task): TaskId {
    t.id
  }

  function StampOf(t: Task): int {
    t.effectiveAt
  }

  /** `exists`: some version of the task was saved. */
  predicate Exists(repo: Repo, id: TaskId) {
    exists i :: 0 <= i < |repo.rows| && repo.rows[i].id == id
  }

  /** `find_by_id`: the version with the latest effective time, the last saved among
      versions sharing it. */
  function FindById(repo: Repo, id: TaskId): (r: Option<Task>)
    ensures r.None? <==> !Exists(repo, id)
    ensures r.Some? ==> r.value in repo.rows && r.value.id == id
    ensures r.Some? ==> forall q :: q in repo.rows && q.id == id ==> q.effectiveAt <= r.value.effectiveAt
    ensures r.Some? ==> exists i :: VS.IsLatest(repo.rows, IdOf, StampOf, id, None, i) && repo.rows[i] == r.value
  {
    VS.Current(repo.rows, IdOf, StampOf, id)
  }

  /** `save`: appends a version. The saved version becomes current when no version of its
      task is stamped later, and no other task is affected. */
  function Save(repo: Repo, t: Task): (r: Repo)
    ensures r.counter == repo.counter
    ensures Exists(r, t.id)
    ensures (forall q :: q in repo.rows && q.id == t.id ==> q.effectiveAt <= t.effectiveAt) ==> FindById(r, t.id) == Some(t)
    ensures forall id :: id != t.id ==> FindById(r, id) == FindById(repo, id)
    ensures forall id :: Exists(r, id) <==> Exists(repo, id) || id == t.id
  {
    AppendBecomesCurrent(repo, t);
    AppendKeepsOthers(repo, t);
    AppendExists(repo, t);
    Repo(repo.rows + [t], repo.counter)
  }

  lemma AppendBecomesCurrent(repo: Repo, t: Task)
    ensures (forall q :: q in repo.rows && q.id == t.id ==> q.effectiveAt <= t.effectiveAt)
        ==> FindById(Repo(repo.rows + [t], repo.counter), t.id) == Some(t)
  {
    if forall q :: q in repo.rows && q.id == t.id ==> q.effectiveAt <= t.effectiveAt {
      VS.SaveBecomesCurrent(repo.rows, t, IdOf, StampOf);
    }
  }

  lemma AppendKeepsOthers(repo: Repo, t: Task)
    ensures forall id :: id != t.id ==> FindById(Repo(repo.rows + [t], repo.counter), id) == FindById(repo, id)
  {
    forall id | id != t.id
      ensures FindById(Repo(repo.rows + [t], repo.counter), id) == FindById(repo, id)
    {
      VS.SaveOtherKey(repo.rows, t, IdOf, StampOf, id, None);
    }
  }

  lemma AppendExists(repo: Repo, t: Task)
    ensures forall id :: Exists(Repo(repo.rows + [t], repo.counter), id) <==> Exists(repo, id) || id == t.id
  {
    var rows := repo.rows + [t];
    assert rows[|repo.rows|] == t;
    assert forall i :: 0 <= i < |repo.rows| ==> rows[i] == repo.rows[i];
  }

  /** Saving appends exactly one version to the task's history. */
  lemma SaveExtendsHistory(repo: Repo, t: Task)
    ensures multiset(FindHistory(Save(repo, t), t.id)) == multiset(FindHistory(repo, t.id)) + multiset{t}
  {
    VS.SaveAppendsVersion(repo.rows, t, IdOf, t.id);
  }

  /** `find_all_active`: the current version of every task whose current version is
      active, one per task. */
  function FindAllActive(repo: Repo): (r: seq<Task>)
    ensures forall t :: t in r <==> FindById(repo, t.id) == Some(t) && t.IsActive()
    ensures forall i, j :: 0 <= i < j < |r| ==> r[i].id != r[j].id
  {
    VS.CurrentWhere(repo.rows, IdOf, StampOf, (t: Task) => t.IsActive())
  }

  /** `find_all`: the current version of every task, one per task. */
  function FindAll(repo: Repo): (r: seq<Task>)
    ensures forall t :: t in r <==> FindById(repo, t.id) == Some(t)
    ensures forall i, j :: 0 <= i < j < |r| ==> r[i].id != r[j].id
  {
    VS.CurrentWhere(repo.rows, IdOf, StampOf, (t: Task) => true)
  }

  /** `find_by_status`. */
  function FindByStatus(repo: Repo, status: Status): (r: seq<Task>)
    ensures forall t :: t in r <==> FindById(repo, t.id) == Some(t) && t.status == status
    ensures forall i, j :: 0 <= i < j < |r| ==> r[i].id != r[j].id
  {
    VS.CurrentWhere(repo.rows, IdOf, StampOf, (t: Task) => t.status == status)
  }

  /** `find_by_name_prefix`: `starts_with` on the current name. */
  function FindByNamePrefix(repo: Repo, prefix: string): (r: seq<Task>)
    ensures forall t :: t in r <==> FindById(repo, t.id) == Some(t) && StartsWith(t.name, prefix)
    ensures forall i, j :: 0 <= i < j < |r| ==> r[i].id != r[j].id
  {
    VS.CurrentWhere(repo.rows, IdOf, StampOf, (t: Task) => StartsWith(t.name, prefix))
  }

  /** `next_id`: hands out the counter and advances it, even when the value is not a valid
      id. */
  function NextId(repo: Repo): (r: (Repo, Result<TaskId>))
    ensures r.0.rows == repo.rows && r.0.counter == repo.counter + 1
    ensures r.1.Ok? <==> repo.counter > 0
    ensures r.1.Ok? ==> r.1.value.value == repo.counter
  {
    (Repo(repo.rows, repo.counter + 1), TaskIds.New(repo.counter))
  }

  /** `find_history`: every saved version of the task, ordered by effective time, with
      versions of equal time in save order. */
  function FindHistory(repo: Repo, id: TaskId): (r: seq<Task>)
    ensures multiset(r) == multiset(VS.VersionsOf(repo.rows, IdOf, id))
    ensures forall q :: q in r <==> q in repo.rows && q.id == id
    ensures forall i, j :: 0 <= i < j < |r| ==> r[i].effectiveAt <= r[j].effectiveAt
    ensures !Exists(repo, id) ==> r == []
  {
    VS.History(repo.rows, IdOf, StampOf, id)
  }

  /** `find_at_time`: the version that was current at `at`. */
  function FindAtTime(repo: Repo, id: TaskId, at: int): (r: Option<Task>)
    ensures r.None? <==> forall q :: q in repo.rows && q.id == id ==> q.effectiveAt > at
    ensures r.Some? ==> r.value in repo.rows && r.value.id == id && r.value.effectiveAt <= at
    ensures r.Some? ==> forall q :: q in repo.rows && q.id == id && q.effectiveAt <= at ==> q.effectiveAt <= r.value.effectiveAt
  {
    VS.AtTime(repo.rows, IdOf, StampOf, id, at)
  }

  /** `find_by_project_id`: the current version of every task whose current version belongs
      to the project, archived ones included. */
  function FindByProjectId(repo: Repo, projectId: ProjectId): (r: seq<Task>)
    ensures forall t :: t in r <==> FindById(repo, t.id) == Some(t) && t.projectId == projectId
    ensures forall i, j :: 0 <= i < j < |r| ==> r[i].id != r[j].id
  {
    VS.CurrentWhere(repo.rows, IdOf, StampOf, (t: Task) => BelongsToProject(t, projectId))
  }

  /** `find_active_by_project_id`: as `find_by_project_id`, active tasks only. */
  function FindActiveByProjectId(repo: Repo, projectId: ProjectId): (r: seq<Task>)
    ensures forall t :: t in r <==> FindById(repo, t.id) == Some(t) && t.projectId == projectId && t.IsActive()
    ensures forall i, j :: 0 <= i < j < |r| ==> r[i].id != r[j].id
  {
    VS.CurrentWhere(repo.rows, IdOf, StampOf, (t: Task) => BelongsToProject(t, projectId) && t.IsActive())
  }

  /** `count_by_project_id`: how many tasks currently belong to the project, archived ones
      included; zero exactly when none does. */
  function CountByProjectId(repo: Repo, projectId: ProjectId): (n: nat)
    ensures n == |FindByProjectId(repo, projectId)|
    ensures n == 0 <==> forall t: Task :: FindById(repo, t.id) == Some(t) ==> t.projectId != projectId
  {
    var ts := FindByProjectId(repo, projectId);
    assert |ts| > 0 ==> ts[0] in ts;
    |ts|
  }

  /** The order `sort_by(|a, b| a.name().cmp(b.name()))` sorts by. */
  function NameLe(a: Task, b: Task): bool {
    LexLe(a.name, b.name)
  }

  lemma NameLeIsTotalPreorder()
    ensures Seqs.TotalPreorder(NameLe)
  {
    forall a: Task, b: Task
      ensures NameLe(a, b) || NameLe(b, a)
    {
      LexLeTotal(a.name, b.name);
    }
    forall a: Task, b: Task, c: Task | NameLe(a, b) && NameLe(b, c)
      ensures NameLe(a, c)
    {
      LexLeTransitive(a.name, b.name, c.name);
    }
  }

  /** `find_by_project_id_ordered`: the same tasks, sorted by name. */
  function FindByProjectIdOrdered(repo: Repo, projectId: ProjectId): (r: seq<Task>)
    ensures multiset(r) == multiset(FindByProjectId(repo, projectId))
    ensures forall i, j :: 0 <= i < j < |r| ==> LexLe(r[i].name, r[j].name)
  {
    NameLeIsTotalPreorder();
    Seqs.SortBy(FindByProjectId(repo, projectId), NameLe)
  }

  /** Every stored id is below the counter: what makes `next_id` hand out fresh ids when all
      saved tasks got their id from it. */
  predicate CounterAhead(repo: Repo) {
    repo.counter >= 1 && forall i :: 0 <= i < |repo.rows| ==> repo.rows[i].id.value < repo.counter
  }

  /** `next_id` then yields an id no saved task has, and keeps the counter ahead. */
  lemma NextIdIsFresh(repo: Repo)
    requires CounterAhead(repo)
    ensures NextId(repo).1.Ok?
    ensures !Exists(repo, NextId(repo).1.value)
    ensures CounterAhead(NextId(repo).0)
  {
  }

  lemma SaveKeepsCounterAhead(repo: Repo, t: Task)
    requires CounterAhead(repo)
    requires t.id.value < repo.counter
    ensures CounterAhead(Save(repo, t))
  {
  }

  /** Versions of a task in the repository all satisfy the task invariant. */
  predicate AllValid(repo: Repo) {
    forall i :: 0 <= i < |repo.rows| ==> Valid(repo.rows[i])
  }
}
