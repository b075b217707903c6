/** What the in-memory repositories have in common. Each keeps, per entity id, every version
    ever saved, in save order, and answers lookups with `max_by_key` on the effective time.
    Here the versions of all ids sit in one sequence `rows` in save order; `key` gives a
    version's id and `stamp` its effective time. The order in which the `HashMap` hands out
    ids is unspecified in the source; listings here follow the order in which ids were first
    saved. */
module VersionStore {
  import opened Base
  import opened Seqs

  /** The versions a lookup considers: those of id `k`, and with `bound == Some(t)` only
      those effective at or before `t`. */
  predicate Selected<E(!new), K(==,!new)>(e: E, key: E -> K, stamp: E -> int, k: K, bound: Option<int>) {
    key(e) == k && (bound.None? || stamp(e) <= bound.value)
  }

  /** Row `i` is what `max_by_key(effective_at)` returns among the selected rows: one with
      the greatest stamp and, when several share it, the one saved last. */
  predicate IsLatest<E(!new), K(==,!new)>(rows: seq<E>, key: E -> K, stamp: E -> int, k: K, bound: Option<int>, i: int) {
    && 0 <= i < |rows|
    && Selected(rows[i], key, stamp, k, bound)
    && (forall j :: 0 <= j < |rows| && Selected(rows[j], key, stamp, k, bound) ==> stamp(rows[j]) <= stamp(rows[i]))
    && (forall j :: i < j < |rows| && Selected(rows[j], key, stamp, k, bound) ==> stamp(rows[j]) < stamp(rows[i]))
  }

  /** `max_by_key` as a left fold: a later element replaces the best so far unless it is
      strictly smaller. */
  function LatestIndex<E(!new), K(==,!new)>(rows: seq<E>, key: E -> K, stamp: E -> int, k: K, bound: Option<int>): (r: Option<nat>)
    ensures r.None? <==> forall j :: 0 <= j < |rows| ==> !Selected(rows[j], key, stamp, k, bound)
    ensures r.Some? ==> IsLatest(rows, key, stamp, k, bound, r.value)
  {
    if |rows| == 0 then None
    else
      var last := |rows| - 1;
      var prev := LatestIndex(rows[..last], key, stamp, k, bound);
      if !Selected(rows[last], key, stamp, k, bound) then prev
      else if prev.None? || stamp(rows[prev.value]) <= stamp(rows[last]) then Some(last)
      else prev
  }

  /** At most one row is the latest. */
  lemma LatestUnique<E(!new), K(!new)>(rows: seq<E>, key: E -> K, stamp: E -> int, k: K, bound: Option<int>, i: int, j: int)
    requires IsLatest(rows, key, stamp, k, bound, i)
    requires IsLatest(rows, key, stamp, k, bound, j)
    ensures i == j
  {
  }

  /** `find_by_id`: the latest version of `k`, if any was saved. */
  function Current<E(!new), K(==,!new)>(rows: seq<E>, key: E -> K, stamp: E -> int, k: K): (r: Option<E>)
    ensures r.None? <==> forall j :: 0 <= j < |rows| ==> key(rows[j]) != k
    ensures r.Some? ==> exists i :: IsLatest(rows, key, stamp, k, None, i) && rows[i] == r.value
  {
    match LatestIndex(rows, key, stamp, k, None)
    case None => None
    case Some(i) => Some(rows[i])
  }

  /** `find_at_time`: the latest version of `k` effective at or before `at`. */
  function AtTime<E(!new), K(==,!new)>(rows: seq<E>, key: E -> K, stamp: E -> int, k: K, at: int): (r: Option<E>)
    ensures r.None? <==> forall j :: 0 <= j < |rows| ==> key(rows[j]) != k || stamp(rows[j]) > at
    ensures r.Some? ==> exists i :: IsLatest(rows, key, stamp, k, Some(at), i) && rows[i] == r.value
  {
    match LatestIndex(rows, key, stamp, k, Some(at))
    case None => None
    case Some(i) => Some(rows[i])
  }

  lemma CurrentKey<E(!new), K(!new)>(rows: seq<E>, key: E -> K, stamp: E -> int, k: K)
    requires Current(rows, key, stamp, k).Some?
    ensures key(Current(rows, key, stamp, k).value) == k
  {
  }

  /** Looking far enough ahead in time finds the current version. */
  lemma AtTimeAfterAll<E(!new), K(!new)>(rows: seq<E>, key: E -> K, stamp: E -> int, k: K, at: int)
    requires forall j :: 0 <= j < |rows| ==> stamp(rows[j]) <= at
    ensures AtTime(rows, key, stamp, k, at) == Current(rows, key, stamp, k)
  {
    var a := LatestIndex(rows, key, stamp, k, Some(at));
    var c := LatestIndex(rows, key, stamp, k, None);
    if c.Some? {
      assert IsLatest(rows, key, stamp, k, Some(at), c.value);
      LatestUnique(rows, key, stamp, k, Some(at), a.value, c.value);
    }
  }

  /** The versions of `k`, in save order: the `Vec` the source keeps per id. */
  function VersionsOf<E(!new), K(==,!new)>(rows: seq<E>, key: E -> K, k: K): (r: seq<E>)
    ensures |r| <= |rows|
    ensures forall x :: x in r <==> x in rows && key(x) == k
  {
    if |rows| == 0 then []
    else (if key(rows[0]) == k then [rows[0]] else []) + VersionsOf(rows[1..], key, k)
  }

  /** The order `sort_by_key(effective_at)` sorts by. */
  function StampLe<E>(stamp: E -> int): (E, E) -> bool {
    (a: E, b: E) => stamp(a) <= stamp(b)
  }

  lemma StampLeIsTotalPreorder<E(!new)>(stamp: E -> int)
    ensures TotalPreorder(StampLe(stamp))
  {
  }

  /** `find_history`: every version of `k`, sorted by effective time, stably. */
  function History<E(!new), K(==,!new)>(rows: seq<E>, key: E -> K, stamp: E -> int, k: K): (r: seq<E>)
    ensures multiset(r) == multiset(VersionsOf(rows, key, k))
    ensures forall x :: x in r <==> x in rows && key(x) == k
    ensures (forall j :: 0 <= j < |rows| ==> key(rows[j]) != k) ==> r == []
    ensures forall i, j :: 0 <= i < j < |r| ==> stamp(r[i]) <= stamp(r[j])
  {
    StampLeIsTotalPreorder(stamp);
    SortedVersions(rows, key, stamp, k);
    SortBy(VersionsOf(rows, key, k), StampLe(stamp))
  }

  lemma SortedVersions<E(!new), K(!new)>(rows: seq<E>, key: E -> K, stamp: E -> int, k: K)
    requires TotalPreorder(StampLe(stamp))
    ensures forall x :: x in SortBy(VersionsOf(rows, key, k), StampLe(stamp)) <==> x in rows && key(x) == k
    ensures (forall j :: 0 <= j < |rows| ==> key(rows[j]) != k) ==> SortBy(VersionsOf(rows, key, k), StampLe(stamp)) == []
  {
    var v := VersionsOf(rows, key, k);
    var h := SortBy(v, StampLe(stamp));
    forall x
      ensures x in h <==> x in v
    {
      assert x in h <==> x in multiset(h);
      assert x in v <==> x in multiset(v);
    }
    if |h| > 0 && forall j :: 0 <= j < |rows| ==> key(rows[j]) != k {
      assert h[0] in v;
    }
  }

  /** Versions with equal stamps keep their save order in the history. */
  lemma HistoryIsStable<E(!new), K(!new)>(rows: seq<E>, key: E -> K, stamp: E -> int, k: K, x: E)
    ensures Equivalents(History(rows, key, stamp, k), StampLe(stamp), x)
         == Equivalents(VersionsOf(rows, key, k), StampLe(stamp), x)
  {
    StampLeIsTotalPreorder(stamp);
    SortIsStable(VersionsOf(rows, key, k), StampLe(stamp), x);
  }

  /** The ids that have at least one version, each once, in order of first save. */
  function Keys<E(!new), K(==,!new)>(rows: seq<E>, key: E -> K): (ks: seq<K>)
    ensures forall k :: k in ks <==> exists i :: 0 <= i < |rows| && key(rows[i]) == k
    ensures forall i, j :: 0 <= i < j < |ks| ==> ks[i] != ks[j]
  {
    if |rows| == 0 then []
    else
      var last := |rows| - 1;
      var ks := Keys(rows[..last], key);
      assert forall i :: 0 <= i < last ==> rows[..last][i] == rows[i];
      if key(rows[last]) in ks then ks else ks + [key(rows[last])]
  }

  /** The current versions of the ids in `ks` that satisfy `keep`, in the order of `ks`. */
  function CurrentOfKeys<E(!new), K(==,!new)>(rows: seq<E>, key: E -> K, stamp: E -> int, keep: E -> bool, ks: seq<K>): (r: seq<E>)
    requires forall i, j :: 0 <= i < j < |ks| ==> ks[i] != ks[j]
    ensures forall x :: x in r <==> key(x) in ks && Current(rows, key, stamp, key(x)) == Some(x) && keep(x)
    ensures forall i, j :: 0 <= i < j < |r| ==> key(r[i]) != key(r[j])
  {
    if |ks| == 0 then []
    else
      var c := Current(rows, key, stamp, ks[0]);
      var rest := CurrentOfKeys(rows, key, stamp, keep, ks[1..]);
      assert c.Some? ==> key(c.value) == ks[0] by {
        if c.Some? {
          CurrentKey(rows, key, stamp, ks[0]);
        }
      }
      if c.Some? && keep(c.value) then [c.value] + rest else rest
  }

  /** `values().filter_map(max_by_key).filter(keep)`: the current version of every id whose
      current version satisfies `keep`, one per id. */
  function CurrentWhere<E(!new), K(==,!new)>(rows: seq<E>, key: E -> K, stamp: E -> int, keep: E -> bool): (r: seq<E>)
    ensures forall x :: x in r <==> Current(rows, key, stamp, key(x)) == Some(x) && keep(x)
    ensures forall i, j :: 0 <= i < j < |r| ==> key(r[i]) != key(r[j])
  {
    var ks := Keys(rows, key);
    assert forall x :: Current(rows, key, stamp, key(x)) == Some(x) ==> key(x) in ks by {
      forall x | Current(rows, key, stamp, key(x)) == Some(x)
        ensures key(x) in ks
      {
        var i :| IsLatest(rows, key, stamp, key(x), None, i) && rows[i] == x;
      }
    }
    CurrentOfKeys(rows, key, stamp, keep, ks)
  }

  /** Saving a version of another id changes no lookup of `k`. */
  lemma SaveOtherKey<E(!new), K(!new)>(rows: seq<E>, e: E, key: E -> K, stamp: E -> int, k: K, bound: Option<int>)
    requires key(e) != k
    ensures LatestIndex(rows + [e], key, stamp, k, bound) == LatestIndex(rows, key, stamp, k, bound)
  {
    assert (rows + [e])[..|rows|] == rows;
  }

  /** A saved version stamped no earlier than every version of its id becomes current. */
  lemma SaveBecomesCurrent<E(!new), K(!new)>(rows: seq<E>, e: E, key: E -> K, stamp: E -> int)
    requires forall j :: 0 <= j < |rows| && key(rows[j]) == key(e) ==> stamp(rows[j]) <= stamp(e)
    ensures Current(rows + [e], key, stamp, key(e)) == Some(e)
  {
    assert (rows + [e])[..|rows|] == rows;
  }

  /** A saved version stamped before the current one does not displace it: lookups go by
      effective time, not by save order. */
  lemma SaveOlderKeepsCurrent<E(!new), K(!new)>(rows: seq<E>, e: E, key: E -> K, stamp: E -> int)
    requires Current(rows, key, stamp, key(e)).Some?
    requires stamp(e) < stamp(Current(rows, key, stamp, key(e)).value)
    ensures Current(rows + [e], key, stamp, key(e)) == Current(rows, key, stamp, key(e))
  {
    assert (rows + [e])[..|rows|] == rows;
  }

  /** Saving only appends to the versions of the saved id. */
  lemma {:induction false} SaveAppendsVersion<E(!new), K(!new)>(rows: seq<E>, e: E, key: E -> K, k: K)
    ensures VersionsOf(rows + [e], key, k) == VersionsOf(rows, key, k) + (if key(e) == k then [e] else [])
  {
    var last := if key(e) == k then [e] else [];
    if |rows| > 0 {
      var head := if key(rows[0]) == k then [rows[0]] else [];
      var t := rows + [e];
      assert t[0] == rows[0] && t[1..] == rows[1..] + [e];
      SaveAppendsVersion(rows[1..], e, key, k);
      assert VersionsOf(t, key, k) == head + (VersionsOf(rows[1..], key, k) + last);
      assert VersionsOf(rows, key, k) == head + VersionsOf(rows[1..], key, k);
      assert head + (VersionsOf(rows[1..], key, k) + last) == (head + VersionsOf(rows[1..], key, k)) + last;
    } else {
      var t := rows + [e];
      assert |t| == 1 && t[0] == e && t[1..] == [];
      assert VersionsOf(t[1..], key, k) == [];
      assert VersionsOf(rows, key, k) == [];
    }
  }
}
