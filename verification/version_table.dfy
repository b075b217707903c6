/** What the SQLite project and task stores have in common: an identifier table holding each
    id once, and a version table with one row per save, numbered per entity, never updated or
    deleted. Stored timestamps are whole seconds; their fixed-width text compares as the
    instants do, so `MAX(effective_at)` and `effective_at <= ?` are taken on integers. */
module VersionTables {
  import opened Base
  import opened Seqs
  import VS = VersionStore

  /** One row of a version table: the entity id, its version number, the entity's fields and
      its effective time. */
  datatype Row<D> = Row(entity: int, version: int, data: D, effectiveAt: int)

  /** The identifier table and the version table of one kind of entity, rows in insertion
      order. */
  datatype Table<D> = Table(ids: seq<int>, rows: seq<Row<D>>)

  predicate Distinct<T(==)>(s: seq<T>) {
    forall i, j :: 0 <= i < j < |s| ==> s[i] != s[j]
  }

  lemma {:induction false} FilterDistinct<T(!new)>(s: seq<T>, p: T -> bool)
    requires Distinct(s)
    ensures Distinct(Filter(s, p))
  {
    if |s| > 0 {
      assert Distinct(s[1..]);
      FilterDistinct(s[1..], p);
      assert s[0] !in s[1..];
    }
  }

  /** Filtering rows that name distinct entities keeps them distinct. */
  lemma FilterKeepsEntitiesDistinct<D(!new)>(v: seq<Row<D>>, p: Row<D> -> bool)
    requires forall i, j :: 0 <= i < j < |v| ==> v[i].entity != v[j].entity
    ensures forall i, j :: 0 <= i < j < |Filter(v, p)| ==> Filter(v, p)[i].entity != Filter(v, p)[j].entity
  {
    EntityDeterminesRow(v);
    FilterDistinct(v, p);
    var q := Filter(v, p);
    forall i, j | 0 <= i < j < |q|
      ensures q[i].entity != q[j].entity
    {
      assert q[i] in q && q[j] in q;
    }
  }

  lemma EntityDeterminesRow<D(!new)>(v: seq<Row<D>>)
    requires forall i, j :: 0 <= i < j < |v| ==> v[i].entity != v[j].entity
    ensures Distinct(v)
    ensures forall x, y :: x in v && y in v && x.entity == y.entity ==> x == y
  {
    forall x, y | x in v && y in v && x.entity == y.entity
      ensures x == y
    {
      var i :| 0 <= i < |v| && v[i] == x;
      var j :| 0 <= j < |v| && v[j] == y;
      assert i == j;
    }
  }

  /** A sequence without repeats has as many elements as its set. */
  lemma {:induction false} DistinctCard<T(!new)>(s: seq<T>)
    requires Distinct(s)
    ensures |set x | x in s| == |s|
  {
    if |s| > 0 {
      assert Distinct(s[1..]);
      DistinctCard(s[1..]);
      assert s[0] !in s[1..];
      assert (set x | x in s) == {s[0]} + (set x | x in s[1..]);
    }
  }

  /** Two sequences without repeats that hold the same elements are equally long. */
  lemma SameElementsSameLength<T(!new)>(a: seq<T>, b: seq<T>)
    requires Distinct(a) && Distinct(b)
    requires forall x :: x in a <==> x in b
    ensures |a| == |b|
  {
    DistinctCard(a);
    DistinctCard(b);
    assert (set x | x in a) == (set x | x in b);
  }

  /** The largest `f(x)` over the elements satisfying `p`: SQL's `MAX` over a `WHERE`. */
  function MaxWhere<T(!new)>(xs: seq<T>, p: T -> bool, f: T -> int): (m: Option<int>)
    ensures m.None? <==> forall x :: x in xs ==> !p(x)
    ensures m.Some? ==> forall x :: x in xs && p(x) ==> f(x) <= m.value
    ensures m.Some? ==> exists x :: x in xs && p(x) && f(x) == m.value
  {
    if |xs| == 0 then None
    else
      var rest := MaxWhere(xs[1..], p, f);
      assert forall x :: x in xs <==> x == xs[0] || x in xs[1..];
      if !p(xs[0]) then rest
      else if rest.None? || f(xs[0]) >= rest.value then Some(f(xs[0]))
      else rest
  }

  /** The maximum is attained by any selected element no other selected element exceeds. */
  lemma MaxWhereIs<T(!new)>(xs: seq<T>, p: T -> bool, f: T -> int, x: T)
    requires x in xs && p(x)
    requires forall y :: y in xs && p(y) ==> f(y) <= f(x)
    ensures MaxWhere(xs, p, f) == Some(f(x))
  {
  }

  /** `MAX` depends on which elements there are, not on their order or repetition. */
  lemma MaxWhereOfSameElements<T(!new)>(a: seq<T>, b: seq<T>, p: T -> bool, f: T -> int)
    requires forall x :: x in a <==> x in b
    ensures MaxWhere(a, p, f) == MaxWhere(b, p, f)
  {
    var ma, mb := MaxWhere(a, p, f), MaxWhere(b, p, f);
    if ma.Some? && mb.Some? {
      var x :| x in a && p(x) && f(x) == ma.value;
      var y :| y in b && p(y) && f(y) == mb.value;
      assert f(y) <= ma.value && f(x) <= mb.value;
    }
  }

  /** The loop every listing query ends with: converts the fetched rows in order and returns
      the first conversion error (`?` inside the `for`). */
  function Collect<D, E>(rows: seq<Row<D>>, build: Row<D> -> Result<E>): (r: Result<seq<E>>)
    ensures r.Ok? <==> forall i :: 0 <= i < |rows| ==> build(rows[i]).Ok?
    ensures r.Ok? ==> |r.value| == |rows| && forall i :: 0 <= i < |rows| ==> r.value[i] == build(rows[i]).value
    ensures r.Err? ==> exists i :: && 0 <= i < |rows| && build(rows[i]) == Err(r.error)
                                  && forall j :: 0 <= j < i ==> build(rows[j]).Ok?
  {
    if |rows| == 0 then Ok([])
    else
      match build(rows[0])
      case Err(e) => Err(e)
      case Ok(x) =>
        var rest := Collect(rows[1..], build);
        if rest.Err? then
          FirstErrShift(rows, build, rest.error);
          Err(rest.error)
        else
          AllOkShift(rows, build);
          Ok([x] + rest.value)
  }

  lemma FirstErrShift<D, E>(rows: seq<Row<D>>, build: Row<D> -> Result<E>, err: Error)
    requires |rows| > 0 && build(rows[0]).Ok?
    requires exists i :: && 0 <= i < |rows[1..]| && build(rows[1..][i]) == Err(err)
                         && forall j :: 0 <= j < i ==> build(rows[1..][j]).Ok?
    ensures exists i :: && 0 <= i < |rows| && build(rows[i]) == Err(err)
                        && forall j :: 0 <= j < i ==> build(rows[j]).Ok?
  {
    var i :| 0 <= i < |rows[1..]| && build(rows[1..][i]) == Err(err)
             && forall j :: 0 <= j < i ==> build(rows[1..][j]).Ok?;
    assert build(rows[i + 1]) == Err(err);
    assert forall j :: 1 <= j < i + 1 ==> rows[j] == rows[1..][j - 1];
  }

  lemma AllOkShift<D, E>(rows: seq<Row<D>>, build: Row<D> -> Result<E>)
    requires |rows| > 0
    ensures (forall i :: 0 <= i < |rows[1..]| ==> build(rows[1..][i]).Ok?)
        <==> forall i :: 1 <= i < |rows| ==> build(rows[i]).Ok?
  {
    assert forall i :: 1 <= i < |rows| ==> rows[i] == rows[1..][i - 1];
  }

  /** When every row converts, the loop returns the conversions in order. */
  lemma CollectAllOk<D, E>(rows: seq<Row<D>>, build: Row<D> -> Result<E>, g: Row<D> -> E)
    requires forall i :: 0 <= i < |rows| ==> build(rows[i]) == Ok(g(rows[i]))
    ensures Collect(rows, build) == Ok(Map(rows, g))
  {
  }

  /** A row that converts has its conversion in a successful result. */
  lemma CollectHas<D, E>(rows: seq<Row<D>>, build: Row<D> -> Result<E>, k: int)
    requires Collect(rows, build).Ok? && 0 <= k < |rows|
    ensures build(rows[k]).Ok? && build(rows[k]).value in Collect(rows, build).value
  {
    assert Collect(rows, build).value[k] == build(rows[k]).value;
  }

  /** Each element of a successful result is the conversion of some row. */
  lemma CollectMember<D, E>(rows: seq<Row<D>>, build: Row<D> -> Result<E>, x: E) returns (k: nat)
    requires Collect(rows, build).Ok? && x in Collect(rows, build).value
    ensures k < |rows| && build(rows[k]) == Ok(x)
  {
    var r := Collect(rows, build).value;
    k :| 0 <= k < |r| && r[k] == x;
  }

  // ---------------------------------------------------------------- identifier table

  /** `INSERT OR IGNORE INTO <ids> (id) VALUES (e)`: the primary key keeps each id once. */
  function InsertOrIgnore(ids: seq<int>, e: int): (r: seq<int>)
    ensures forall x :: x in r <==> x in ids || x == e
    ensures Distinct(ids) ==> Distinct(r)
    ensures |r| == if e in ids then |ids| else |ids| + 1
  {
    if e in ids then ids else ids + [e]
  }

  /** Inserting an id that is already there adds no row. */
  lemma InsertOrIgnoreIdempotent(ids: seq<int>, e: int)
    ensures InsertOrIgnore(InsertOrIgnore(ids, e), e) == InsertOrIgnore(ids, e)
  {
  }

  function Identity(): int -> int {
    (x: int) => x
  }

  function Always(): int -> bool {
    (x: int) => true
  }

  /** `SELECT COALESCE(MAX(id), 0) + 1 FROM <ids>`: a read; it reserves nothing. */
  function NextId(ids: seq<int>): (n: int)
    ensures forall x :: x in ids ==> x < n
    ensures |ids| == 0 ==> n == 1
    ensures |ids| > 0 ==> n - 1 in ids
  {
    var m := MaxWhere(ids, Always(), Identity());
    assert |ids| > 0 ==> ids[0] in ids;
    if m.None? then 1 else m.value + 1
  }

  // ---------------------------------------------------------------- version table

  /** Selects the rows of entity `e`, and with `bound == Some(t)` only those effective at or
      before `t`. */
  function Within<D(==,!new)>(e: int, bound: Option<int>): Row<D> -> bool {
    (r: Row<D>) => r.entity == e && (bound.None? || r.effectiveAt <= bound.value)
  }

  /** Selects the rows of entity `e` effective exactly at `t`. */
  function At<D(==,!new)>(e: int, t: int): Row<D> -> bool {
    (r: Row<D>) => r.entity == e && r.effectiveAt == t
  }

  function StampOf<D(==,!new)>(): Row<D> -> int {
    (r: Row<D>) => r.effectiveAt
  }

  function VersionOf<D(==,!new)>(): Row<D> -> int {
    (r: Row<D>) => r.version
  }

  function EntityOf<D(==,!new)>(r: Row<D>): int {
    r.entity
  }

  function EffectiveAt<D(==,!new)>(r: Row<D>): int {
    r.effectiveAt
  }

  /** `SELECT COALESCE(MAX(version), 0) + 1 FROM <versions> WHERE entity = e`. */
  function NextVersion<D(==,!new)>(rows: seq<Row<D>>, e: int): (v: int)
    ensures forall x :: x in rows && x.entity == e ==> x.version < v
    ensures (forall x :: x in rows ==> x.entity != e) ==> v == 1
    ensures (exists x :: x in rows && x.entity == e) ==> exists x :: x in rows && x.entity == e && x.version == v - 1
  {
    var m := MaxWhere(rows, Within(e, None), VersionOf());
    if m.None? then 1 else m.value + 1
  }

  /** The `UNIQUE(entity, version)` constraint. */
  predicate UniqueVersions<D(==,!new)>(rows: seq<Row<D>>) {
    forall i, j :: 0 <= i < j < |rows| && rows[i].entity == rows[j].entity ==> rows[i].version != rows[j].version
  }

  /** A plain `INSERT` into a version table. The column `CHECK` and the foreign keys are
      judged by the caller (`checkOk`, `keysOk`); the unique key is checked here. A failed
      insert leaves the table as it was. */
  function InsertRow<D(==,!new)>(rows: seq<Row<D>>, row: Row<D>, checkOk: bool, keysOk: bool): (r: Result<seq<Row<D>>>)
    ensures r.Ok? <==> checkOk && keysOk && forall x :: x in rows && x.entity == row.entity ==> x.version != row.version
    ensures r.Ok? ==> r.value == rows + [row]
    ensures r.Ok? && UniqueVersions(rows) ==> UniqueVersions(r.value)
  {
    if !checkOk then Err(CheckConstraintFailed)
    else if !keysOk then Err(ForeignKeyConstraintFailed)
    else if exists x :: x in rows && x.entity == row.entity && x.version == row.version then Err(UniqueConstraintFailed)
    else Ok(rows + [row])
  }

  /** A row numbered with `NextVersion` never breaks the unique key. */
  lemma NextVersionIsFree<D(!new)>(rows: seq<Row<D>>, e: int, d: D, at: int)
    ensures forall x :: x in rows && x.entity == e ==> x.version != NextVersion(rows, e)
  {
  }

  // ---------------------------------------------------------------- version numbering

  /** How many rows of entity `e` there are. */
  function CountOf<D(==,!new)>(rows: seq<Row<D>>, e: int): nat {
    if |rows| == 0 then 0
    else CountOf(rows[..|rows| - 1], e) + (if rows[|rows| - 1].entity == e then 1 else 0)
  }

  /** Each row is numbered one more than the rows of its entity inserted before it: the
      versions of an entity are 1, 2, …, N in insertion order. */
  predicate Numbered<D(==,!new)>(rows: seq<Row<D>>) {
    forall i :: 0 <= i < |rows| ==> rows[i].version == CountOf(rows[..i], rows[i].entity) + 1
  }

  lemma {:induction false} CountMonotone<D(!new)>(rows: seq<Row<D>>, i: nat, j: nat, e: int)
    requires i <= j <= |rows|
    ensures CountOf(rows[..i], e) <= CountOf(rows[..j], e)
    decreases j - i
  {
    if i < j {
      assert rows[..j][..j - 1] == rows[..j - 1];
      CountMonotone(rows, i, j - 1, e);
    }
  }

  lemma NumberedPrefix<D(!new)>(rows: seq<Row<D>>, n: nat)
    requires Numbered(rows)
    requires n <= |rows|
    ensures Numbered(rows[..n])
  {
    forall i | 0 <= i < n
      ensures rows[..n][i].version == CountOf(rows[..n][..i], rows[..n][i].entity) + 1
    {
      assert rows[..n][..i] == rows[..i];
    }
  }

  /** In a numbered table a later row of an entity has a larger version. */
  lemma NumberedIncreasing<D(!new)>(rows: seq<Row<D>>, i: nat, j: nat)
    requires Numbered(rows)
    requires i < j < |rows| && rows[i].entity == rows[j].entity
    ensures rows[i].version < rows[j].version
  {
    assert rows[..i + 1][..i] == rows[..i];
    CountMonotone(rows, i + 1, j, rows[i].entity);
  }

  lemma NumberedUnique<D(!new)>(rows: seq<Row<D>>)
    requires Numbered(rows)
    ensures UniqueVersions(rows)
  {
    forall i, j | 0 <= i < j < |rows| && rows[i].entity == rows[j].entity
      ensures rows[i].version != rows[j].version
    {
      NumberedIncreasing(rows, i, j);
    }
  }

  /** In a numbered table the versions of `e` run up to the number of its rows, and the last
      of them carries that number. */
  lemma NumberedTop<D(!new)>(rows: seq<Row<D>>, e: int)
    requires Numbered(rows)
    ensures forall x :: x in rows && x.entity == e ==> x.version <= CountOf(rows, e)
    ensures CountOf(rows, e) > 0 ==> exists x :: x in rows && x.entity == e && x.version == CountOf(rows, e)
  {
    forall x | x in rows && x.entity == e
      ensures x.version <= CountOf(rows, e)
    {
      var k :| 0 <= k < |rows| && rows[k] == x;
      NumberedBelow(rows, k);
    }
    NumberedLast(rows, e);
  }

  lemma NumberedBelow<D(!new)>(rows: seq<Row<D>>, k: nat)
    requires Numbered(rows) && k < |rows|
    ensures rows[k].version <= CountOf(rows, rows[k].entity)
  {
    var e := rows[k].entity;
    assert rows[k].version == CountOf(rows[..k], e) + 1;
    assert CountOf(rows[..k + 1], e) == CountOf(rows[..k], e) + 1 by {
      assert rows[..k + 1][..k] == rows[..k];
    }
    CountMonotone(rows, k + 1, |rows|, e);
    assert rows[..|rows|] == rows;
  }

  lemma {:induction false} NumberedLast<D(!new)>(rows: seq<Row<D>>, e: int)
    requires Numbered(rows)
    ensures CountOf(rows, e) > 0 ==> exists x :: x in rows && x.entity == e && x.version == CountOf(rows, e)
    decreases |rows|
  {
    if |rows| > 0 {
      var last := |rows| - 1;
      var pre := rows[..last];
      assert rows[last] in rows;
      if rows[last].entity != e {
        NumberedPrefix(rows, last);
        NumberedLast(pre, e);
        if CountOf(pre, e) > 0 {
          var x :| x in pre && x.entity == e && x.version == CountOf(pre, e);
          assert x in rows;
        }
      }
    }
  }

  /** In a numbered table the next version of `e` is one more than its number of rows. */
  lemma NumberedNext<D(!new)>(rows: seq<Row<D>>, e: int)
    requires Numbered(rows)
    ensures NextVersion(rows, e) == CountOf(rows, e) + 1
  {
    NumberedTop(rows, e);
    var v := NextVersion(rows, e);
    if CountOf(rows, e) > 0 {
      var x :| x in rows && x.entity == e && x.version == CountOf(rows, e);
    } else {
      assert forall x :: x in rows ==> x.entity != e by {
        forall x | x in rows
          ensures x.entity != e
        {
          var k :| 0 <= k < |rows| && rows[k] == x;
        }
      }
    }
  }

  /** Appending a row numbered with `NextVersion` keeps the table numbered. */
  lemma AppendKeepsNumbered<D(!new)>(rows: seq<Row<D>>, e: int, d: D, at: int)
    requires Numbered(rows)
    ensures Numbered(rows + [Row(e, NextVersion(rows, e), d, at)])
  {
    NumberedNext(rows, e);
    var r := rows + [Row(e, NextVersion(rows, e), d, at)];
    forall i | 0 <= i < |r|
      ensures r[i].version == CountOf(r[..i], r[i].entity) + 1
    {
      if i < |rows| {
        assert r[..i] == rows[..i];
      } else {
        assert r[..i] == rows;
      }
    }
  }

  // ---------------------------------------------------------------- current rows

  /** The order the views and `find_at_time` rank versions by: effective time, then version. */
  predicate RankLe<D(==,!new)>(a: Row<D>, b: Row<D>) {
    a.effectiveAt < b.effectiveAt || (a.effectiveAt == b.effectiveAt && a.version <= b.version)
  }

  /** `ORDER BY effective_at DESC, version DESC LIMIT 1` over the rows satisfying `p`. */
  function TopWhere<D(==,!new)>(rows: seq<Row<D>>, p: Row<D> -> bool): (r: Option<Row<D>>)
    ensures r.None? <==> forall x :: x in rows ==> !p(x)
    ensures r.Some? ==> r.value in rows && p(r.value)
    ensures r.Some? ==> forall x :: x in rows && p(x) ==> RankLe(x, r.value)
  {
    if |rows| == 0 then None
    else
      var rest := TopWhere(rows[1..], p);
      assert forall x :: x in rows <==> x == rows[0] || x in rows[1..];
      if !p(rows[0]) then rest
      else if rest.None? || RankLe(rest.value, rows[0]) then Some(rows[0])
      else rest
  }

  /** The `latest` common table expression: the greatest effective time of entity `e`. */
  function LatestStamp<D(==,!new)>(rows: seq<Row<D>>, e: int): Option<int> {
    MaxWhere(rows, Within(e, None), StampOf())
  }

  /** The `latest_tie_break` common table expression: the greatest version of `e` among its
      rows at that time. */
  function LatestVersion<D(==,!new)>(rows: seq<Row<D>>, e: int): Option<int> {
    match LatestStamp(rows, e)
    case None => None
    case Some(t) => MaxWhere(rows, At(e, t), VersionOf())
  }

  /** A row the current view's joins keep. */
  predicate InView<D(==,!new)>(rows: seq<Row<D>>, r: Row<D>) {
    LatestStamp(rows, r.entity) == Some(r.effectiveAt) && LatestVersion(rows, r.entity) == Some(r.version)
  }

  function InViewOf<D(==,!new)>(rows: seq<Row<D>>): Row<D> -> bool {
    (r: Row<D>) => InView(rows, r)
  }

  /** `project_current_view` / `task_current_view`: the version rows the joins keep, in
      table order. */
  function CurrentView<D(==,!new)>(rows: seq<Row<D>>): (v: seq<Row<D>>)
    ensures forall x :: x in v <==> x in rows && InView(rows, x)
  {
    Filter(rows, InViewOf(rows))
  }

  /** A row is in the view exactly when no row of its entity ranks above it: the greatest
      effective time, and among rows at that time the greatest version. */
  lemma InViewIffTop<D(!new)>(rows: seq<Row<D>>, r: Row<D>)
    requires r in rows
    ensures InView(rows, r) <==> forall x :: x in rows && x.entity == r.entity ==> RankLe(x, r)
  {
    var e := r.entity;
    assert Within<D>(e, None)(r);
    var t := LatestStamp(rows, e).value;
    if InView(rows, r) {
      forall x | x in rows && x.entity == e
        ensures RankLe(x, r)
      {
        assert Within<D>(e, None)(x);
        if x.effectiveAt == r.effectiveAt {
          assert At<D>(e, t)(x);
        }
      }
    }
    if forall x :: x in rows && x.entity == e ==> RankLe(x, r) {
      assert forall x :: x in rows && Within<D>(e, None)(x) ==> StampOf<D>()(x) <= StampOf<D>()(r);
      MaxWhereIs(rows, Within(e, None), StampOf(), r);
      assert At<D>(e, r.effectiveAt)(r);
      assert forall x :: x in rows && At<D>(e, r.effectiveAt)(x) ==> VersionOf<D>()(x) <= VersionOf<D>()(r);
      MaxWhereIs(rows, At(e, r.effectiveAt), VersionOf(), r);
    }
  }

  /** Two rows of an entity that both rank on top are the same row, given the unique key. */
  lemma TopIsUnique<D(!new)>(rows: seq<Row<D>>, a: Row<D>, b: Row<D>)
    requires UniqueVersions(rows)
    requires a in rows && b in rows && a.entity == b.entity
    requires RankLe(a, b) && RankLe(b, a)
    ensures a == b
  {
    var i :| 0 <= i < |rows| && rows[i] == a;
    var j :| 0 <= j < |rows| && rows[j] == b;
  }

  /** With the unique key the view has one row per entity with versions, and none for an
      entity without. */
  lemma ViewOnePerEntity<D(!new)>(rows: seq<Row<D>>)
    requires UniqueVersions(rows)
    ensures forall i, j :: 0 <= i < j < |CurrentView(rows)| ==> CurrentView(rows)[i].entity != CurrentView(rows)[j].entity
  {
    var v := CurrentView(rows);
    assert Distinct(rows) by {
      forall i, j | 0 <= i < j < |rows|
        ensures rows[i] != rows[j]
      {
      }
    }
    FilterDistinct(rows, InViewOf(rows));
    forall i, j | 0 <= i < j < |v|
      ensures v[i].entity != v[j].entity
    {
      assert v[i] in v && v[j] in v;
      if v[i].entity == v[j].entity {
        InViewIffTop(rows, v[i]);
        InViewIffTop(rows, v[j]);
        TopIsUnique(rows, v[i], v[j]);
      }
    }
  }

  lemma ViewCovers<D(!new)>(rows: seq<Row<D>>, e: int)
    ensures (exists x :: x in CurrentView(rows) && x.entity == e) <==> (exists x :: x in rows && x.entity == e)
  {
    if exists x :: x in rows && x.entity == e {
      var top := TopWhere(rows, Within(e, None));
      var r := top.value;
      forall x | x in rows && x.entity == e
        ensures RankLe(x, r)
      {
        assert Within<D>(e, None)(x);
      }
      InViewIffTop(rows, r);
      assert r in CurrentView(rows);
    }
  }

  /** The view depends only on which rows the table holds, not on their order. */
  lemma ViewOfSameRows<D(!new)>(a: seq<Row<D>>, b: seq<Row<D>>)
    requires forall x :: x in a <==> x in b
    ensures forall x :: x in CurrentView(a) <==> x in CurrentView(b)
  {
    forall x
      ensures InView(a, x) <==> InView(b, x)
    {
      MaxWhereOfSameElements(a, b, Within(x.entity, None), StampOf());
      var t := LatestStamp(a, x.entity);
      if t.Some? {
        MaxWhereOfSameElements(a, b, At(x.entity, t.value), VersionOf());
      }
    }
  }

  /** With unique versions, a row of the view is the top-ranked row of its entity. */
  lemma ViewRowIsTopOf<D(!new)>(rows: seq<Row<D>>, x: Row<D>)
    requires UniqueVersions(rows)
    requires x in CurrentView(rows)
    ensures TopWhere(rows, Within(x.entity, None)) == Some(x)
  {
    var top := TopWhere(rows, Within(x.entity, None));
    assert Within<D>(x.entity, None)(x);
    var y := top.value;
    assert RankLe(x, y) && y in rows && y.entity == x.entity;
    InViewIffTop(rows, x);
    TopIsUnique(rows, x, y);
  }

  lemma ViewRowIsTop<D(!new)>(rows: seq<Row<D>>, e: int)
    requires UniqueVersions(rows)
    ensures FindFirst(CurrentView(rows), Within(e, None)) == TopWhere(rows, Within(e, None))
  {
    var v := CurrentView(rows);
    var f := FindFirst(v, Within(e, None));
    var t := TopWhere(rows, Within(e, None));
    ViewCovers(rows, e);
    if t.Some? {
      assert exists x :: x in rows && x.entity == e by {
        assert t.value in rows;
      }
      var r := f.value;
      InViewIffTop(rows, r);
      forall x | x in rows && x.entity == e
        ensures RankLe(x, t.value)
      {
        assert Within<D>(e, None)(x);
      }
      TopIsUnique(rows, r, t.value);
    } else {
      assert forall x :: x in v ==> !Within<D>(e, None)(x);
    }
  }

  // ---------------------------------------------------------------- agreement with max_by_key

  /** In a numbered table the top-ranked row is the one `max_by_key` picks: the greatest
      effective time, ties going to the row inserted last. */
  lemma LatestIsTop<D(!new)>(rows: seq<Row<D>>, e: int, bound: Option<int>, i: int)
    requires Numbered(rows)
    requires VS.IsLatest(rows, EntityOf, EffectiveAt, e, bound, i)
    ensures TopWhere(rows, Within(e, bound)) == Some(rows[i])
  {
    var t := TopWhere(rows, Within(e, bound));
    assert Within<D>(e, bound)(rows[i]);
    assert rows[i] in rows;
    var r := t.value;
    var k :| 0 <= k < |rows| && rows[k] == r;
    assert VS.Selected(rows[k], EntityOf, EffectiveAt, e, bound);
    assert RankLe(rows[i], rows[k]);
    assert rows[k].effectiveAt <= rows[i].effectiveAt;
    assert k <= i;
    NumberedOrder(rows, k, i);
  }

  /** In a numbered table an earlier row of an entity has a smaller version. */
  lemma NumberedOrder<D(!new)>(rows: seq<Row<D>>, i: nat, j: nat)
    requires Numbered(rows)
    requires i < |rows| && j < |rows| && rows[i].entity == rows[j].entity
    ensures i < j ==> rows[i].version < rows[j].version
  {
    if i < j {
      NumberedIncreasing(rows, i, j);
    }
  }
}
