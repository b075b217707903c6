/** Sequence utilities the repositories are built from: order-preserving filtering and
    the stable sort behind Rust's `sort_by_key` / `sort_by`. */
module Seqs {
  import opened Base

  /** `iter().filter(p).collect()`: keeps the elements satisfying `p`, in their order. */
  function Filter<T(!new)>(s: seq<T>, p: T -> bool): (r: seq<T>)
    ensures |r| <= |s|
    ensures forall x :: x in r <==> x in s && p(x)
  {
    if |s| == 0 then [] else (if p(s[0]) then [s[0]] else []) + Filter(s[1..], p)
  }

  lemma {:induction false} FilterAppend<T(!new)>(a: seq<T>, b: seq<T>, p: T -> bool)
    ensures Filter(a + b, p) == Filter(a, p) + Filter(b, p)
  {
    if |a| == 0 {
      assert a + b == b;
    } else {
      assert (a + b)[1..] == a[1..] + b;
      FilterAppend(a[1..], b, p);
    }
  }

  /** Every element of `s` is related by `le` to every later one. */
  predicate SortedBy<T>(s: seq<T>, le: (T, T) -> bool) {
    forall i, j :: 0 <= i < j < |s| ==> le(s[i], s[j])
  }

  /** A comparator Rust would accept for sorting: total and transitive. */
  ghost predicate TotalPreorder<T(!new)>(le: (T, T) -> bool) {
    && (forall a, b :: le(a, b) || le(b, a))
    && (forall a, b, c :: le(a, b) && le(b, c) ==> le(a, c))
  }

  lemma {:induction false} FilterKeepsSorted<T(!new)>(s: seq<T>, p: T -> bool, le: (T, T) -> bool)
    requires SortedBy(s, le)
    ensures SortedBy(Filter(s, p), le)
  {
    if |s| > 0 {
      FilterKeepsSorted(s[1..], p, le);
      var rest := Filter(s[1..], p);
      forall y | y in rest
        ensures le(s[0], y)
      {
        var k :| 0 <= k < |s[1..]| && s[1..][k] == y;
        assert s[k + 1] == y;
      }
    }
  }

  /** Inserts `x` before the first element it does not exceed, so that it lands ahead of
      every element equivalent to it. */
  function Insert<T(!new)>(x: T, s: seq<T>, le: (T, T) -> bool): (r: seq<T>)
    requires TotalPreorder(le)
    requires SortedBy(s, le)
    ensures SortedBy(r, le)
    ensures multiset(r) == multiset(s) + multiset{x}
  {
    if |s| == 0 || le(x, s[0]) then
      SortedCons(x, s, le);
      [x] + s
    else
      var tail := Insert(x, s[1..], le);
      assert s == [s[0]] + s[1..];
      HeadBelow(s, le);
      BelowAll(s[0], x, s[1..], tail, le);
      SortedCons(s[0], tail, le);
      [s[0]] + tail
  }

  /** The head of a sorted sequence is related to every later element. */
  lemma HeadBelow<T>(s: seq<T>, le: (T, T) -> bool)
    requires SortedBy(s, le) && |s| > 0
    ensures forall y :: y in s[1..] ==> le(s[0], y)
  {
    forall y | y in s[1..]
      ensures le(s[0], y)
    {
      var j :| 0 <= j < |s[1..]| && s[1..][j] == y;
      assert s[j + 1] == y;
    }
  }

  /** An element related to `x` and to everything in `rest` is related to everything in a
      sequence holding `rest` and `x`. */
  lemma BelowAll<T>(a: T, x: T, rest: seq<T>, t: seq<T>, le: (T, T) -> bool)
    requires le(a, x) && forall y :: y in rest ==> le(a, y)
    requires multiset(t) == multiset(rest) + multiset{x}
    ensures forall y :: y in t ==> le(a, y)
  {
    forall y | y in t
      ensures le(a, y)
    {
      assert y in multiset(t);
      if y != x {
        assert y in multiset(rest);
      }
    }
  }

  /** Putting an element related to everything in a sorted sequence in front keeps it
      sorted. */
  lemma SortedCons<T>(a: T, t: seq<T>, le: (T, T) -> bool)
    requires SortedBy(t, le) && forall y :: y in t ==> le(a, y)
    ensures SortedBy([a] + t, le)
  {
    var s := [a] + t;
    forall i, j | 0 <= i < j < |s|
      ensures le(s[i], s[j])
    {
      assert s[j] == t[j - 1];
      if i > 0 {
        assert s[i] == t[i - 1];
      } else {
        assert t[j - 1] in t;
      }
    }
  }

  /** Stable insertion sort: the model of `sort_by_key` and `sort_by`. */
  function SortBy<T(!new)>(s: seq<T>, le: (T, T) -> bool): (r: seq<T>)
    requires TotalPreorder(le)
    ensures SortedBy(r, le)
    ensures multiset(r) == multiset(s)
    ensures |r| == |s|
  {
    if |s| == 0 then
      []
    else
      assert s == [s[0]] + s[1..];
      Insert(s[0], SortBy(s[1..], le), le)
  }

  /** The elements of `s` that `le` cannot tell apart from `x`, in their order in `s`. */
  function Equivalents<T(!new)>(s: seq<T>, le: (T, T) -> bool, x: T): (r: seq<T>)
    ensures forall y :: y in r <==> y in s && le(x, y) && le(y, x)
  {
    if |s| == 0 then []
    else (if le(x, s[0]) && le(s[0], x) then [s[0]] else []) + Equivalents(s[1..], le, x)
  }

  lemma EquivalentsCons<T(!new)>(a: T, t: seq<T>, le: (T, T) -> bool, x: T)
    ensures Equivalents([a] + t, le, x) == (if le(x, a) && le(a, x) then [a] else []) + Equivalents(t, le, x)
  {
    assert ([a] + t)[1..] == t;
  }

  lemma {:induction false} InsertIsStable<T(!new)>(y: T, s: seq<T>, le: (T, T) -> bool, x: T)
    requires TotalPreorder(le)
    requires SortedBy(s, le)
    ensures Equivalents(Insert(y, s, le), le, x)
         == (if le(x, y) && le(y, x) then [y] else []) + Equivalents(s, le, x)
  {
    if |s| == 0 || le(y, s[0]) {
      EquivalentsCons(y, s, le, x);
    } else {
      var tail := Insert(y, s[1..], le);
      assert Insert(y, s, le) == [s[0]] + tail;
      assert s == [s[0]] + s[1..];
      EquivalentsCons(s[0], tail, le, x);
      EquivalentsCons(s[0], s[1..], le, x);
      InsertIsStable(y, s[1..], le, x);
      var c0 := if le(x, s[0]) && le(s[0], x) then [s[0]] else [];
      var cy := if le(x, y) && le(y, x) then [y] else [];
      var e := Equivalents(s[1..], le, x);
      // `y` and `s[0]` are not equivalent, so at most one of them is equivalent to `x`.
      assert !(le(y, x) && le(x, s[0]));
      if c0 == [] {
        assert c0 + (cy + e) == cy + e && c0 + e == e;
      } else {
        assert cy + (c0 + e) == c0 + e && cy + e == e;
      }
    }
  }

  /** Sorting never reorders equivalent elements. */
  lemma {:induction false} SortIsStable<T(!new)>(s: seq<T>, le: (T, T) -> bool, x: T)
    requires TotalPreorder(le)
    ensures Equivalents(SortBy(s, le), le, x) == Equivalents(s, le, x)
  {
    if |s| > 0 {
      SortIsStable(s[1..], le, x);
      InsertIsStable(s[0], SortBy(s[1..], le), le, x);
    }
  }

  /** `Vec::truncate(limit)`: the first `limit` elements, or all of them. */
  function Truncate<T>(s: seq<T>, limit: nat): (r: seq<T>)
    ensures |r| == if limit < |s| then limit else |s|
    ensures r <= s
  {
    if limit < |s| then s[..limit] else s
  }

  /** `iter().find(p)`: the first element satisfying `p`. */
  function FindFirst<T(!new)>(s: seq<T>, p: T -> bool): (r: Option<T>)
    ensures r.None? <==> forall x :: x in s ==> !p(x)
    ensures r.Some? ==> r.value in s && p(r.value)
    ensures r.Some? ==> exists i :: 0 <= i < |s| && s[i] == r.value && forall j :: 0 <= j < i ==> !p(s[j])
  {
    if |s| == 0 then None
    else if p(s[0]) then Some(s[0])
    else
      var r := FindFirst(s[1..], p);
      assert r.Some? ==> exists i :: 0 <= i < |s| && s[i] == r.value && forall j :: 0 <= j < i ==> !p(s[j]) by {
        if r.Some? {
          var i :| 0 <= i < |s[1..]| && s[1..][i] == r.value && forall j :: 0 <= j < i ==> !p(s[1..][j]);
          assert s[i + 1] == r.value;
          assert forall j :: 1 <= j < i + 1 ==> s[j] == s[1..][j - 1];
        }
      }
      r
  }

  /** Filtering keeps each element as often as the input has it, or drops it entirely. */
  lemma {:induction false} FilterCount<T(!new)>(s: seq<T>, p: T -> bool, x: T)
    ensures multiset(Filter(s, p))[x] == if p(x) then multiset(s)[x] else 0
  {
    if |s| > 0 {
      FilterCount(s[1..], p, x);
      assert s == [s[0]] + s[1..];
    }
  }

  /** Filtering two permutations of each other gives permutations of each other. */
  lemma FilterPermutation<T(!new)>(a: seq<T>, b: seq<T>, p: T -> bool)
    requires multiset(a) == multiset(b)
    ensures multiset(Filter(a, p)) == multiset(Filter(b, p))
  {
    forall x
      ensures multiset(Filter(a, p))[x] == multiset(Filter(b, p))[x]
    {
      FilterCount(a, p, x);
      FilterCount(b, p, x);
    }
  }

  /** `iter().map(f).collect()`. */
  function Map<T, U>(s: seq<T>, f: T -> U): (r: seq<U>)
    ensures |r| == |s|
    ensures forall i :: 0 <= i < |s| ==> r[i] == f(s[i])
  {
    if |s| == 0 then [] else [f(s[0])] + Map(s[1..], f)
  }

  /** Comparing images under `f` with `le2` is comparing the originals with `le1`. */
  ghost predicate Reflects<T(!new), U(!new)>(f: T -> U, le1: (T, T) -> bool, le2: (U, U) -> bool) {
    forall a, b :: le1(a, b) == le2(f(a), f(b))
  }

  lemma {:induction false} InsertMap<T(!new), U(!new)>(x: T, s: seq<T>, f: T -> U, le1: (T, T) -> bool, le2: (U, U) -> bool)
    requires TotalPreorder(le1) && TotalPreorder(le2)
    requires Reflects(f, le1, le2)
    requires SortedBy(s, le1) && SortedBy(Map(s, f), le2)
    ensures Insert(f(x), Map(s, f), le2) == Map(Insert(x, s, le1), f)
  {
    var m := Map(s, f);
    if |s| == 0 || le1(x, s[0]) {
      MapCons(x, s, f);
    } else {
      var rest := Insert(x, s[1..], le1);
      assert Insert(x, s, le1) == [s[0]] + rest;
      assert m[1..] == Map(s[1..], f);
      SortedTail(s, le1);
      SortedTail(m, le2);
      InsertMap(x, s[1..], f, le1, le2);
      MapCons(s[0], rest, f);
      assert Insert(f(x), m, le2) == [m[0]] + Insert(f(x), m[1..], le2);
    }
  }

  lemma MapCons<T, U>(a: T, t: seq<T>, f: T -> U)
    ensures Map([a] + t, f) == [f(a)] + Map(t, f)
  {
    assert ([a] + t)[1..] == t;
  }

  lemma SortedTail<T>(s: seq<T>, le: (T, T) -> bool)
    requires SortedBy(s, le) && |s| > 0
    ensures SortedBy(s[1..], le)
  {
    forall i, j | 0 <= i < j < |s| - 1
      ensures le(s[1..][i], s[1..][j])
    {
      assert s[1..][i] == s[i + 1] && s[1..][j] == s[j + 1];
    }
  }

  /** Sorting the images of a sequence by an order that `f` reflects gives the images of
      the sorted sequence: the stable sort never consults anything but the order. */
  lemma {:induction false} SortByMap<T(!new), U(!new)>(s: seq<T>, f: T -> U, le1: (T, T) -> bool, le2: (U, U) -> bool)
    requires TotalPreorder(le1) && TotalPreorder(le2)
    requires Reflects(f, le1, le2)
    ensures SortBy(Map(s, f), le2) == Map(SortBy(s, le1), f)
  {
    if |s| > 0 {
      assert Map(s, f)[1..] == Map(s[1..], f);
      SortByMap(s[1..], f, le1, le2);
      var sorted := SortBy(s[1..], le1);
      assert SortedBy(Map(sorted, f), le2);
      InsertMap(s[0], sorted, f, le1, le2);
    }
  }

  lemma MapAppend<T, U>(a: seq<T>, b: seq<T>, f: T -> U)
    ensures Map(a + b, f) == Map(a, f) + Map(b, f)
  {
  }

  lemma MapCompose<T, U, V>(s: seq<T>, f: T -> U, g: U -> V, h: T -> V)
    requires forall x :: h(x) == g(f(x))
    ensures Map(s, h) == Map(Map(s, f), g)
  {
  }
}
