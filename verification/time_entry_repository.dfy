/** The in-memory `TimeEntryRepository`: an append-only log of events and an id counter that
    starts at 1. Intervals are never stored; every query rebuilds them from the log. */
module TimeEntryRepository {
  import opened Base
  import opened TaskIds
  import opened TimeEntries
  import opened Seqs

  /** `events` in save order; `counter` is the next id `save_event` hands out. */
  datatype Log = Log(events: seq<Event>, counter: int)

  /** `InMemoryTimeEntryRepository::new`. */
  const Empty := Log([], 1)

  /** `save_event`: stamps the event with the next id and appends it; nothing else changes. */
  function SaveEvent(log: Log, e: Event): (r: (Log, Event))
    ensures r.1.id == Some(log.counter) && r.1.(id := e.id) == e
    ensures r.0.events == log.events + [r.1]
    ensures r.0.counter == log.counter + 1
  {
    var saved := WithId(e, log.counter);
    (Log(log.events + [saved], log.counter + 1), saved)
  }

  /** Event `i` names no start saved after it: a start names nothing, a stop or an
      annotation names a start saved before it. */
  predicate RefersBack(events: seq<Event>, i: int)
    requires 0 <= i < |events|
  {
    var sid := events[i].startEventId;
    if events[i].IsStart() then sid.None?
    else sid.Some? && 1 <= sid.value <= i && events[sid.value - 1].IsStart()
  }

  /** A log that `save_event` built from the events the services create: event `i` has id
      `i + 1`, the counter is the next id, and every stop or annotation names an earlier
      start. */
  predicate Wf(log: Log) {
    && log.counter == |log.events| + 1
    && (forall i :: 0 <= i < |log.events| ==> log.events[i].id == Some(i + 1))
    && (forall i :: 0 <= i < |log.events| ==> RefersBack(log.events, i))
  }

  lemma EmptyIsWf()
    ensures Wf(Empty)
  {
  }

  /** Saving a start, or a stop or annotation that names a start already in the log, keeps
      the log well formed. */
  lemma SaveEventKeepsWf(log: Log, e: Event)
    requires Wf(log)
    requires e.IsStart() ==> e.startEventId.None?
    requires !e.IsStart() ==> e.startEventId.Some? && 1 <= e.startEventId.value <= |log.events|
    requires !e.IsStart() ==> log.events[e.startEventId.value - 1].IsStart()
    ensures Wf(SaveEvent(log, e).0)
  {
    var events := SaveEvent(log, e).0.events;
    forall i | 0 <= i < |events|
      ensures RefersBack(events, i)
    {
      if i < |log.events| {
        assert RefersBack(log.events, i);
      }
    }
  }

  /** Event `e` is a stop closing the interval of start `sid`. */
  predicate StopsStart(e: Event, sid: int) {
    e.IsStop() && e.startEventId.Some? && e.startEventId.value == sid
  }

  /** The position of the first stop naming start `sid`: `events.iter().find(..)`. */
  function FirstStop(events: seq<Event>, sid: int): (r: Option<nat>)
    ensures r.None? <==> forall j :: 0 <= j < |events| ==> !StopsStart(events[j], sid)
    ensures r.Some? ==> r.value < |events| && StopsStart(events[r.value], sid)
    ensures r.Some? ==> forall j :: 0 <= j < r.value ==> !StopsStart(events[j], sid)
  {
    if |events| == 0 then None
    else
      var last := |events| - 1;
      var prev := FirstStop(events[..last], sid);
      assert forall j :: 0 <= j < last ==> events[..last][j] == events[j];
      if prev.Some? then prev
      else if StopsStart(events[last], sid) then Some(last)
      else None
  }

  /** Appending an event can only supply the first stop of a start that had none. */
  lemma FirstStopAppend(events: seq<Event>, e: Event, sid: int)
    ensures FirstStop(events + [e], sid)
         == if FirstStop(events, sid).Some? then FirstStop(events, sid)
            else if StopsStart(e, sid) then Some(|events|)
            else None
  {
    assert (events + [e])[..|events|] == events;
  }

  /** Event `i` is a start that `build_time_entries` turns into an interval: it has an id
      and, since the starts are collected into a map keyed by id, no later start has the
      same id. */
  predicate Opens(events: seq<Event>, i: int) {
    && 0 <= i < |events|
    && events[i].IsStart()
    && events[i].id.Some?
    && forall j :: i < j < |events| ==> !(events[j].IsStart() && events[j].id == events[i].id)
  }

  /** The interval start `i` opens, closed by the first stop that names it. */
  function IntervalOf(events: seq<Event>, i: int): (r: TimeEntry)
    requires Opens(events, i)
    ensures Consistent(r)
    ensures r.taskId == events[i].taskId && r.startEventId == events[i].id.value
    ensures r.startTime == events[i].at
    ensures r.IsRunning() <==> FirstStop(events, events[i].id.value).None?
    ensures r.IsCompleted() ==> r.endTime == Some(events[FirstStop(events, events[i].id.value).value].at)
  {
    var sid := events[i].id.value;
    var end := match FirstStop(events, sid)
      case None => None
      case Some(j) => Some(events[j].at);
    NewEntry(events[i].taskId, sid, events[i].at, end)
  }

  /** Start `i` opens an interval that no stop has closed. */
  predicate Running(events: seq<Event>, i: int) {
    Opens(events, i) && FirstStop(events, events[i].id.value).None?
  }

  /** The intervals opened by the first `n` events, in log order. */
  function IntervalsUpTo(events: seq<Event>, n: nat): (r: seq<TimeEntry>)
    requires n <= |events|
  {
    if n == 0 then []
    else IntervalsUpTo(events, n - 1) + (if Opens(events, n - 1) then [IntervalOf(events, n - 1)] else [])
  }

  /** Those are exactly the intervals of the starts among the first `n` events. */
  lemma {:induction false} IntervalsUpToMembers(events: seq<Event>, n: nat)
    requires n <= |events|
    ensures forall x :: x in IntervalsUpTo(events, n) <==> exists i :: 0 <= i < n && Opens(events, i) && x == IntervalOf(events, i)
  {
    if n > 0 {
      IntervalsUpToMembers(events, n - 1);
    }
  }

  /** `x` is the interval of some start in the log. */
  predicate Built(events: seq<Event>, x: TimeEntry) {
    exists i :: 0 <= i < |events| && Opens(events, i) && x == IntervalOf(events, i)
  }

  /** `b.start_time().cmp(&a.start_time())`: newer intervals first. */
  function NewestFirst(): (TimeEntry, TimeEntry) -> bool {
    (a: TimeEntry, b: TimeEntry) => a.startTime >= b.startTime
  }

  lemma NewestFirstIsTotalPreorder()
    ensures TotalPreorder(NewestFirst())
  {
  }

  /** `build_time_entries`: one interval per start, newest first. The source collects the
      starts through a `HashMap`, so intervals with equal start times come in no specified
      order; here they keep log order. */
  function BuildTimeEntries(events: seq<Event>): (r: seq<TimeEntry>)
    ensures multiset(r) == multiset(IntervalsUpTo(events, |events|))
    ensures forall x :: x in r <==> Built(events, x)
    ensures SortedBy(r, NewestFirst())
  {
    NewestFirstIsTotalPreorder();
    IntervalsUpToMembers(events, |events|);
    var all := IntervalsUpTo(events, |events|);
    var r := SortBy(all, NewestFirst());
    assert forall x :: x in r <==> x in all by {
      forall x
        ensures x in r <==> x in all
      {
        assert x in r <==> x in multiset(r);
        assert x in all <==> x in multiset(all);
      }
    }
    r
  }

  /** The filter `is_running`. */
  function IsRunningEntry(): TimeEntry -> bool {
    (x: TimeEntry) => x.IsRunning()
  }

  /** The filter `task_id() == t`. */
  function OfTask(t: TaskId): TimeEntry -> bool {
    (x: TimeEntry) => x.taskId == t
  }

  /** The filter `task_id() == t && is_running()`. */
  function RunningOfTask(t: TaskId): TimeEntry -> bool {
    (x: TimeEntry) => x.taskId == t && x.IsRunning()
  }

  /** How many of the first `n` events open an interval that no stop closes. */
  function RunningCount(events: seq<Event>, n: nat): nat
    requires n <= |events|
  {
    if n == 0 then 0 else RunningCount(events, n - 1) + (if Running(events, n - 1) then 1 else 0)
  }

  lemma {:induction false} FilterRunningCount(events: seq<Event>, n: nat)
    requires n <= |events|
    ensures |Filter(IntervalsUpTo(events, n), IsRunningEntry())| == RunningCount(events, n)
  {
    if n > 0 {
      FilterRunningCount(events, n - 1);
      var tail := if Opens(events, n - 1) then [IntervalOf(events, n - 1)] else [];
      FilterAppend(IntervalsUpTo(events, n - 1), tail, IsRunningEntry());
      if Opens(events, n - 1) {
        assert Filter(tail, IsRunningEntry()) == (if Running(events, n - 1) then tail else []) + Filter(tail[1..], IsRunningEntry());
      }
    }
  }

  /** With a single running start `k`, exactly one of the first `n` events runs when `k`
      is among them. */
  lemma {:induction false} RunningCountSingle(events: seq<Event>, k: int, n: nat)
    requires n <= |events|
    requires forall i :: Running(events, i) ==> i == k
    ensures RunningCount(events, n) == if Running(events, k) && k < n then 1 else 0
  {
    if n > 0 {
      RunningCountSingle(events, k, n - 1);
    }
  }

  /** `find_running_entries`: the intervals no stop has closed, one per running start,
      newest first. */
  function FindRunningEntries(log: Log): (r: seq<TimeEntry>)
    ensures forall x :: x in r <==> exists i :: Running(log.events, i) && x == IntervalOf(log.events, i)
    ensures |r| == RunningCount(log.events, |log.events|)
    ensures SortedBy(r, NewestFirst())
  {
    var all := BuildTimeEntries(log.events);
    FilterKeepsSorted(all, IsRunningEntry(), NewestFirst());
    FilterPermutation(all, IntervalsUpTo(log.events, |log.events|), IsRunningEntry());
    FilterRunningCount(log.events, |log.events|);
    assert |multiset(Filter(all, IsRunningEntry()))| == |multiset(Filter(IntervalsUpTo(log.events, |log.events|), IsRunningEntry()))|;
    Filter(all, IsRunningEntry())
  }

  /** `find_running_entry_by_task`: the newest running interval of the task, if any. */
  function FindRunningEntryByTask(log: Log, t: TaskId): (r: Option<TimeEntry>)
    ensures r.None? <==> forall i :: Running(log.events, i) ==> log.events[i].taskId != t
    ensures r.Some? ==> exists i :: Running(log.events, i) && log.events[i].taskId == t && r.value == IntervalOf(log.events, i)
    ensures r.Some? ==> forall i :: Running(log.events, i) && log.events[i].taskId == t ==> log.events[i].at <= r.value.startTime
  {
    FirstRunningOfTaskNone(log, t);
    FirstRunningOfTaskSome(log, t);
    FirstRunningOfTaskNewest(log, t);
    FindFirst(BuildTimeEntries(log.events), RunningOfTask(t))
  }

  lemma FirstRunningOfTaskNone(log: Log, t: TaskId)
    ensures FindFirst(BuildTimeEntries(log.events), RunningOfTask(t)).None?
        ==> forall i :: Running(log.events, i) ==> log.events[i].taskId != t
  {
    var r := FindFirst(BuildTimeEntries(log.events), RunningOfTask(t));
    if r.None? {
      forall i | Running(log.events, i)
        ensures log.events[i].taskId != t
      {
        var y := IntervalOf(log.events, i);
        assert Built(log.events, y);
        assert !RunningOfTask(t)(y);
      }
    }
  }

  lemma FirstRunningOfTaskSome(log: Log, t: TaskId)
    ensures var r := FindFirst(BuildTimeEntries(log.events), RunningOfTask(t));
            r.Some? ==> exists i :: Running(log.events, i) && log.events[i].taskId == t && r.value == IntervalOf(log.events, i)
  {
    var r := FindFirst(BuildTimeEntries(log.events), RunningOfTask(t));
    if r.Some? {
      assert Built(log.events, r.value);
      var i :| 0 <= i < |log.events| && Opens(log.events, i) && r.value == IntervalOf(log.events, i);
      assert Running(log.events, i);
    }
  }

  lemma FirstRunningOfTaskNewest(log: Log, t: TaskId)
    ensures var r := FindFirst(BuildTimeEntries(log.events), RunningOfTask(t));
            r.Some? ==> forall i :: Running(log.events, i) && log.events[i].taskId == t ==> log.events[i].at <= r.value.startTime
  {
    var all := BuildTimeEntries(log.events);
    var r := FindFirst(all, RunningOfTask(t));
    if r.Some? {
      var k :| 0 <= k < |all| && all[k] == r.value && forall j :: 0 <= j < k ==> !RunningOfTask(t)(all[j]);
      forall i | Running(log.events, i) && log.events[i].taskId == t
        ensures log.events[i].at <= r.value.startTime
      {
        var y := IntervalOf(log.events, i);
        assert y in all;
        var m :| 0 <= m < |all| && all[m] == y;
        assert RunningOfTask(t)(all[m]);
        assert k <= m;
        if k < m {
          assert NewestFirst()(all[k], all[m]);
        }
      }
    }
  }

  /** `find_entries_by_task`: every interval of the task, running or not, newest first. */
  function FindEntriesByTask(log: Log, t: TaskId): (r: seq<TimeEntry>)
    ensures forall x :: x in r <==> exists i :: Opens(log.events, i) && log.events[i].taskId == t && x == IntervalOf(log.events, i)
    ensures SortedBy(r, NewestFirst())
  {
    var all := BuildTimeEntries(log.events);
    FilterKeepsSorted(all, OfTask(t), NewestFirst());
    Filter(all, OfTask(t))
  }

  /** `find_entries_by_task_and_period`: the task's intervals that start within
      `[start, end]`, both ends included. */
  function FindEntriesByTaskAndPeriod(log: Log, t: TaskId, start: int, end: int): (r: seq<TimeEntry>)
    ensures forall x :: x in r <==> Built(log.events, x) && x.taskId == t && start <= x.startTime <= end
    ensures SortedBy(r, NewestFirst())
  {
    var all := BuildTimeEntries(log.events);
    var keep := (x: TimeEntry) => x.taskId == t && start <= x.startTime <= end;
    FilterKeepsSorted(all, keep, NewestFirst());
    Filter(all, keep)
  }

  /** The interval shares time with `[start, end)`; a running interval extends forever. */
  predicate Overlaps(x: TimeEntry, start: int, end: int) {
    x.startTime < end && (x.endTime.None? || x.endTime.value > start)
  }

  /** `find_overlapping_entries`: the task's intervals that share time with `[start, end)`. */
  function FindOverlappingEntries(log: Log, t: TaskId, start: int, end: int): (r: seq<TimeEntry>)
    ensures forall x :: x in r <==> Built(log.events, x) && x.taskId == t && Overlaps(x, start, end)
    ensures SortedBy(r, NewestFirst())
  {
    var all := BuildTimeEntries(log.events);
    var keep := (x: TimeEntry) => x.taskId == t && x.startTime < end && (x.endTime.None? || x.endTime.value > start);
    FilterKeepsSorted(all, keep, NewestFirst());
    Filter(all, keep)
  }

  /** `find_entries_by_project`: the in-memory repository does not relate intervals to
      projects and finds none. */
  function FindEntriesByProject(log: Log, projectId: int): (r: seq<TimeEntry>)
    ensures |r| == 0
  {
    []
  }

  /** `find_entries_by_period`: every interval that starts within `[start, end]`. */
  function FindEntriesByPeriod(log: Log, start: int, end: int): (r: seq<TimeEntry>)
    ensures forall x :: x in r <==> Built(log.events, x) && start <= x.startTime <= end
    ensures SortedBy(r, NewestFirst())
  {
    var all := BuildTimeEntries(log.events);
    var keep := (x: TimeEntry) => start <= x.startTime <= end;
    FilterKeepsSorted(all, keep, NewestFirst());
    Filter(all, keep)
  }

  /** How many of the first `n` events open an interval of task `t`. */
  function StartCount(events: seq<Event>, t: TaskId, n: nat): nat
    requires n <= |events|
  {
    if n == 0 then 0
    else StartCount(events, t, n - 1) + (if Opens(events, n - 1) && events[n - 1].taskId == t then 1 else 0)
  }

  lemma {:induction false} FilterIntervalsCount(events: seq<Event>, t: TaskId, n: nat)
    requires n <= |events|
    ensures |Filter(IntervalsUpTo(events, n), OfTask(t))| == StartCount(events, t, n)
  {
    if n > 0 {
      FilterIntervalsCount(events, t, n - 1);
      FilterIntervalsStep(events, t, n);
    }
  }

  /** Event `n - 1` adds one interval of task `t` exactly when it opens one for `t`. */
  lemma FilterIntervalsStep(events: seq<Event>, t: TaskId, n: nat)
    requires 0 < n <= |events|
    ensures |Filter(IntervalsUpTo(events, n), OfTask(t))|
         == |Filter(IntervalsUpTo(events, n - 1), OfTask(t))| + (if Opens(events, n - 1) && events[n - 1].taskId == t then 1 else 0)
  {
    var tail := if Opens(events, n - 1) then [IntervalOf(events, n - 1)] else [];
    FilterAppend(IntervalsUpTo(events, n - 1), tail, OfTask(t));
    if Opens(events, n - 1) {
      assert Filter(tail, OfTask(t)) == (if events[n - 1].taskId == t then tail else []) + Filter(tail[1..], OfTask(t));
    }
  }

  /** `count_entries_by_task`: one interval per start event of the task. */
  function CountEntriesByTask(log: Log, t: TaskId): (n: nat)
    ensures n == StartCount(log.events, t, |log.events|)
  {
    var all := BuildTimeEntries(log.events);
    FilterPermutation(all, IntervalsUpTo(log.events, |log.events|), OfTask(t));
    FilterIntervalsCount(log.events, t, |log.events|);
    assert |multiset(Filter(all, OfTask(t)))| == |multiset(Filter(IntervalsUpTo(log.events, |log.events|), OfTask(t)))|;
    |FindEntriesByTask(log, t)|
  }

  /** `filter_map(duration_in_seconds).sum()`: running intervals add nothing. */
  function TotalDuration(s: seq<TimeEntry>): int {
    if |s| == 0 then 0 else TotalDuration(s[..|s| - 1]) + s[|s| - 1].durationInSeconds.GetOr(0)
  }

  lemma {:induction false} TotalDurationAppend(a: seq<TimeEntry>, b: seq<TimeEntry>)
    ensures TotalDuration(a + b) == TotalDuration(a) + TotalDuration(b)
  {
    if |b| == 0 {
      assert a + b == a;
    } else {
      assert (a + b)[..|a + b| - 1] == a + b[..|b| - 1];
      TotalDurationAppend(a, b[..|b| - 1]);
    }
  }

  /** The total does not depend on the order of the intervals. */
  lemma {:induction false} TotalDurationPermutation(a: seq<TimeEntry>, b: seq<TimeEntry>)
    requires multiset(a) == multiset(b)
    ensures TotalDuration(a) == TotalDuration(b)
    decreases |a|
  {
    if |a| > 0 {
      var x := a[|a| - 1];
      assert x in multiset(b);
      var k :| 0 <= k < |b| && b[k] == x;
      var rest := b[..k] + b[k + 1..];
      RemoveLastMatching(a, b, k);
      TotalDurationPermutation(a[..|a| - 1], rest);
      TotalDurationRemove(b, k);
      assert a == a[..|a| - 1] + [x];
    }
  }

  /** Dropping the last element of `a` and a matching element of `b` keeps the multisets equal. */
  lemma RemoveLastMatching<T>(a: seq<T>, b: seq<T>, k: nat)
    requires multiset(a) == multiset(b) && |a| > 0 && k < |b| && b[k] == a[|a| - 1]
    ensures multiset(a[..|a| - 1]) == multiset(b[..k] + b[k + 1..])
  {
    var x := b[k];
    assert b == b[..k] + [x] + b[k + 1..];
    assert a == a[..|a| - 1] + [x];
    assert multiset(b[..k] + b[k + 1..]) == multiset(b) - multiset{x};
    assert multiset(a[..|a| - 1]) == multiset(a) - multiset{x};
  }

  /** The total of `b` is the total without its `k`-th entry plus that entry's duration. */
  lemma TotalDurationRemove(b: seq<TimeEntry>, k: nat)
    requires k < |b|
    ensures TotalDuration(b) == TotalDuration(b[..k] + b[k + 1..]) + b[k].durationInSeconds.GetOr(0)
  {
    var p, x, q := b[..k], b[k], b[k + 1..];
    assert b == p + [x] + q;
    TotalDurationMiddle(p, x, q);
  }

  lemma TotalDurationMiddle(p: seq<TimeEntry>, x: TimeEntry, q: seq<TimeEntry>)
    ensures TotalDuration(p + [x] + q) == TotalDuration(p + q) + x.durationInSeconds.GetOr(0)
  {
    var px := p + [x];
    TotalDurationAppend(px, q);
    assert px[..|px| - 1] == p;
    TotalDurationAppend(p, q);
  }

  /** What event `i` adds to the time worked on task `t`: when it opens an interval of `t`
      that a stop closes, the stop's time minus the start's. */
  function WorkedAt(events: seq<Event>, t: TaskId, i: int): int
    requires 0 <= i < |events|
  {
    if Opens(events, i) && events[i].taskId == t then
      match FirstStop(events, events[i].id.value)
      case None => 0
      case Some(j) => events[j].at - events[i].at
    else 0
  }

  /** Time worked on task `t` as the first `n` events of the log record it. */
  function WorkedSeconds(events: seq<Event>, t: TaskId, n: nat): int
    requires n <= |events|
  {
    if n == 0 then 0 else WorkedSeconds(events, t, n - 1) + WorkedAt(events, t, n - 1)
  }

  /** The filtered total of the interval event `i` opens is what the event adds. */
  lemma IntervalTotal(events: seq<Event>, t: TaskId, i: int)
    requires Opens(events, i)
    ensures TotalDuration(Filter([IntervalOf(events, i)], OfTask(t))) == WorkedAt(events, t, i)
  {
    var x := IntervalOf(events, i);
    assert Filter([x], OfTask(t)) == (if x.taskId == t then [x] else []) + Filter([x][1..], OfTask(t));
    assert TotalDuration([x]) == x.durationInSeconds.GetOr(0) by {
      assert [x][..0] == [];
    }
  }

  lemma TotalOfFilterAppend(a: seq<TimeEntry>, b: seq<TimeEntry>, p: TimeEntry -> bool)
    ensures TotalDuration(Filter(a + b, p)) == TotalDuration(Filter(a, p)) + TotalDuration(Filter(b, p))
  {
    FilterAppend(a, b, p);
    TotalDurationAppend(Filter(a, p), Filter(b, p));
  }

  lemma {:induction false} FilterIntervalsTotal(events: seq<Event>, t: TaskId, n: nat)
    requires n <= |events|
    ensures TotalDuration(Filter(IntervalsUpTo(events, n), OfTask(t))) == WorkedSeconds(events, t, n)
  {
    if n == 0 {
      assert IntervalsUpTo(events, 0) == [];
      assert Filter([], OfTask(t)) == [];
    } else {
      FilterIntervalsTotal(events, t, n - 1);
      TaskTotalStep(events, t, n);
      WorkedSecondsStep(events, t, n);
    }
  }

  lemma TaskTotalStep(events: seq<Event>, t: TaskId, n: nat)
    requires 0 < n <= |events|
    ensures TotalDuration(Filter(IntervalsUpTo(events, n), OfTask(t)))
         == TotalDuration(Filter(IntervalsUpTo(events, n - 1), OfTask(t))) + WorkedAt(events, t, n - 1)
  {
    TailTotal(events, t, n - 1);
    TotalOfFilterStep(IntervalsUpTo(events, n), IntervalsUpTo(events, n - 1), IntervalTail(events, n - 1), OfTask(t));
  }

  lemma WorkedSecondsStep(events: seq<Event>, t: TaskId, n: nat)
    requires 0 < n <= |events|
    ensures WorkedSeconds(events, t, n) == WorkedSeconds(events, t, n - 1) + WorkedAt(events, t, n - 1)
  {
  }

  lemma TotalOfFilterStep(all: seq<TimeEntry>, before: seq<TimeEntry>, tail: seq<TimeEntry>, p: TimeEntry -> bool)
    requires all == before + tail
    ensures TotalDuration(Filter(all, p)) == TotalDuration(Filter(before, p)) + TotalDuration(Filter(tail, p))
  {
    TotalOfFilterAppend(before, tail, p);
  }

  /** The intervals event `i` opens: one if it is a start, none otherwise. */
  function IntervalTail(events: seq<Event>, i: int): seq<TimeEntry>
    requires 0 <= i < |events|
  {
    if Opens(events, i) then [IntervalOf(events, i)] else []
  }

  lemma TailTotal(events: seq<Event>, t: TaskId, i: int)
    requires 0 <= i < |events|
    ensures TotalDuration(Filter(IntervalTail(events, i), OfTask(t))) == WorkedAt(events, t, i)
  {
    if Opens(events, i) {
      IntervalTotal(events, t, i);
    } else {
      assert Filter(IntervalTail(events, i), OfTask(t)) == [];
    }
  }

  /** `sum_duration_by_task`: the time worked on the task, completed intervals only. */
  function SumDurationByTask(log: Log, t: TaskId): (s: int)
    ensures s == WorkedSeconds(log.events, t, |log.events|)
  {
    var all := BuildTimeEntries(log.events);
    var everything := IntervalsUpTo(log.events, |log.events|);
    FilterPermutation(all, everything, OfTask(t));
    TotalDurationPermutation(Filter(all, OfTask(t)), Filter(everything, OfTask(t)));
    FilterIntervalsTotal(log.events, t, |log.events|);
    TotalDuration(FindEntriesByTask(log, t))
  }

  /** `sum_duration_by_project`: the total over `find_entries_by_project`, which is always
      empty here. */
  function SumDurationByProject(log: Log, projectId: int): (s: int)
    ensures s == 0
  {
    TotalDuration(FindEntriesByProject(log, projectId))
  }

  /** The filter `start_event_id() == sid`. */
  function StartedBy(sid: int): TimeEntry -> bool {
    (x: TimeEntry) => x.startEventId == sid
  }

  /** `find_entry_by_start_event_id`: the interval opened by the start with id `sid`. */
  function FindEntryByStartEventId(log: Log, sid: int): (r: Option<TimeEntry>)
    ensures r.None? <==> forall i :: Opens(log.events, i) ==> log.events[i].id != Some(sid)
    ensures r.Some? ==> exists i :: Opens(log.events, i) && log.events[i].id == Some(sid) && r.value == IntervalOf(log.events, i)
  {
    var all := BuildTimeEntries(log.events);
    var r := FindFirst(all, StartedBy(sid));
    assert r.None? ==> forall i :: Opens(log.events, i) ==> log.events[i].id != Some(sid) by {
      if r.None? {
        forall i | Opens(log.events, i)
          ensures log.events[i].id != Some(sid)
        {
          var y := IntervalOf(log.events, i);
          assert Built(log.events, y);
          assert !StartedBy(sid)(y);
        }
      }
    }
    assert r.Some? ==> exists i :: Opens(log.events, i) && log.events[i].id == Some(sid) && r.value == IntervalOf(log.events, i) by {
      if r.Some? {
        assert Built(log.events, r.value);
        var i :| 0 <= i < |log.events| && Opens(log.events, i) && r.value == IntervalOf(log.events, i);
      }
    }
    r
  }

  /** In a well-formed log, the start event ids with an interval are exactly the ids of the
      start events. */
  lemma FindEntryByStartEventIdWf(log: Log, sid: int)
    requires Wf(log)
    ensures FindEntryByStartEventId(log, sid).Some? <==> 1 <= sid <= |log.events| && log.events[sid - 1].IsStart()
  {
    if FindEntryByStartEventId(log, sid).Some? {
      var i :| Opens(log.events, i) && log.events[i].id == Some(sid)
               && FindEntryByStartEventId(log, sid).value == IntervalOf(log.events, i);
      StartIdIsAt(log, i, sid);
    }
    if 1 <= sid <= |log.events| && log.events[sid - 1].IsStart() {
      StartOpens(log, sid);
      assert !(forall i :: Opens(log.events, i) ==> log.events[i].id != Some(sid));
    }
  }

  lemma StartIdIsAt(log: Log, i: int, sid: int)
    requires Wf(log)
    requires 0 <= i < |log.events| && log.events[i].IsStart() && log.events[i].id == Some(sid)
    ensures 1 <= sid <= |log.events| && log.events[sid - 1].IsStart()
  {
    assert log.events[i].id.value == sid;
    assert log.events[i].id.value == i + 1;
    assert i == sid - 1;
    assert log.events[sid - 1] == log.events[i];
  }

  /** In a well-formed log the start with id `sid` sits at index `sid - 1` and opens an
      interval. */
  lemma StartOpens(log: Log, sid: int)
    requires Wf(log)
    requires 1 <= sid <= |log.events| && log.events[sid - 1].IsStart()
    ensures Opens(log.events, sid - 1) && log.events[sid - 1].id == Some(sid)
  {
    var i := sid - 1;
    assert log.events[i].id.Some? && log.events[i].id.value == sid;
    forall j | i < j < |log.events|
      ensures log.events[j].id != log.events[i].id
    {
      assert log.events[j].id.value == j + 1;
    }
  }

  /** `find_recent_entries`: the `limit` newest intervals. */
  function FindRecentEntries(log: Log, limit: nat): (r: seq<TimeEntry>)
    ensures r <= BuildTimeEntries(log.events)
    ensures |r| == if limit < |BuildTimeEntries(log.events)| then limit else |BuildTimeEntries(log.events)|
    ensures forall x, y :: x in r && y in BuildTimeEntries(log.events)[|r|..] ==> y.startTime <= x.startTime
  {
    var all := BuildTimeEntries(log.events);
    var r := Truncate(all, limit);
    assert forall x, y :: x in r && y in all[|r|..] ==> y.startTime <= x.startTime by {
      forall x, y | x in r && y in all[|r|..]
        ensures y.startTime <= x.startTime
      {
        var i :| 0 <= i < |r| && r[i] == x;
        var k :| 0 <= k < |all[|r|..]| && all[|r|..][k] == y;
        assert NewestFirst()(all[i], all[|r| + k]);
      }
    }
    r
  }

  /** `find_recent_entries_by_task`: the `limit` newest intervals of the task. */
  function FindRecentEntriesByTask(log: Log, t: TaskId, limit: nat): (r: seq<TimeEntry>)
    ensures r <= FindEntriesByTask(log, t)
    ensures |r| == if limit < |FindEntriesByTask(log, t)| then limit else |FindEntriesByTask(log, t)|
    ensures forall x :: x in r ==> x.taskId == t
  {
    var r := Truncate(FindEntriesByTask(log, t), limit);
    assert forall x :: x in r ==> x in FindEntriesByTask(log, t);
    r
  }

  /** In a well-formed log, ids are unique, so every start opens an interval. */
  lemma OpensIffStart(log: Log, i: int)
    requires Wf(log)
    requires 0 <= i < |log.events|
    ensures Opens(log.events, i) <==> log.events[i].IsStart()
  {
  }

  /** The effect of saving one event on a well-formed log: earlier starts keep running
      unless the event is the stop that names them, and the saved event runs exactly when
      it is a start. */
  lemma SaveEventRunning(log: Log, e: Event)
    requires Wf(log)
    ensures forall i :: 0 <= i < |log.events| ==>
      (Running(SaveEvent(log, e).0.events, i) <==> Running(log.events, i) && !StopsStart(SaveEvent(log, e).1, i + 1))
    ensures Running(SaveEvent(log, e).0.events, |log.events|) <==> e.IsStart()
    ensures forall i :: 0 <= i < |log.events| && Running(SaveEvent(log, e).0.events, i) ==>
      IntervalOf(SaveEvent(log, e).0.events, i) == IntervalOf(log.events, i)
  {
    var (next, saved) := SaveEvent(log, e);
    forall i | 0 <= i < |log.events|
      ensures Running(next.events, i) <==> Running(log.events, i) && !StopsStart(saved, i + 1)
      ensures Running(next.events, i) ==> IntervalOf(next.events, i) == IntervalOf(log.events, i)
    {
      FirstStopAppend(log.events, saved, i + 1);
      assert Opens(next.events, i) <==> Opens(log.events, i);
    }
    FirstStopAppend(log.events, saved, |log.events| + 1);
    assert FirstStop(log.events, |log.events| + 1).None? by {
      forall j | 0 <= j < |log.events|
        ensures !StopsStart(log.events[j], |log.events| + 1)
      {
        assert RefersBack(log.events, j);
      }
    }
  }
}
