/** How often and how late a cached message is retried, as long as no old copy of its key waits and
    the key is not cached again. */
module Backoff {
  import opened Server
  import opened Retries

  // ----- The schedule of one message -----

  /** 0 + 1 + ... + n. */
  function Tri(n: nat): nat
    decreases n
  {
    if n == 0 then 0 else Tri(n - 1) + n
  }

  lemma {:induction false} TriIsHalfProduct(n: nat)
    ensures 2 * Tri(n) == n * (n + 1)
    decreases n
  {
    if n != 0 {
      TriIsHalfProduct(n - 1);
    }
  }

  /** A row whose retry count stood at `count` when its next retry was due at `due`. */
  datatype Plan = Plan(count: nat, due: int)

  /** The earliest time of the retry after `n` others. */
  function Earliest(c: Config, p: Plan, n: nat): int {
    p.due + c.interval * (p.count * n + Tri(n))
  }

  lemma EarliestGrows(c: Config, p: Plan, n: nat)
    requires n > 0
    ensures Earliest(c, p, n) == Earliest(c, p, n - 1) + (p.count + n) * c.interval
  {
    assert p.count * n == p.count * (n - 1) + p.count;
    assert c.interval * (p.count * n + Tri(n)) ==
      c.interval * (p.count * (n - 1) + Tri(n - 1)) + c.interval * (p.count + n);
  }

  lemma EarliestStarts(c: Config, p: Plan)
    ensures Earliest(c, p, 0) == p.due
  {
    assert p.count * 0 + Tri(0) == 0;
  }

  predicate InTodo(d: Daemon, k: Key) {
    d.Updating? && exists i :: 0 <= i < |d.todo| && d.todo[i].key == k
  }

  /** While the message is cached: it was selected `n` times since the plan was made, and its next
      selection keeps the plan; if it waits for its row update, that pass kept the plan. */
  ghost predicate OnSchedule(c: Config, s: Sys, k: Key, p: Plan, n: nat) {
    k in s.w.cache ==>
      var row := s.w.cache[k];
      if InTodo(s.d, k) then
        n > 0 && row.retryNum == p.count + n - 1 && s.d.now >= Earliest(c, p, n - 1) &&
        (forall i :: 0 <= i < |s.d.todo| && s.d.todo[i].key == k ==> s.d.todo[i].retryNum == p.count + n - 1)
      else row.retryNum == p.count + n && row.retryTime >= Earliest(c, p, n)
  }

  predicate Selects(st: Step, k: Key) {
    st.SelectDue? && k in st.order
  }

  /** A key occurs in the rest of the pass only once. */
  lemma TodoDistinct(d: Daemon, i: nat)
    requires d.Updating? && DistinctKeys(InFlight(d)) && i < |d.todo|
    ensures forall j :: 0 <= j < |d.todo| && j != i ==> d.todo[j].key != d.todo[i].key
  {
    var f := InFlight(d);
    assert forall j :: 0 <= j < |d.todo| ==> d.todo[j] == f[|d.batch| + j];
  }

  lemma TodoShifts(c: Config, s: Sys, k: Key)
    requires Enabled(c, s, UpdateNext) && DistinctKeys(InFlight(s.d))
    ensures var t := Next(c, s, UpdateNext).d;
      t.Updating? && t.now == s.d.now && t.todo == s.d.todo[1..] &&
      (InTodo(t, k) <==> InTodo(s.d, k) && s.d.todo[0].key != k)
  {
    var t := Next(c, s, UpdateNext).d;
    TodoDistinct(s.d, 0);
    if InTodo(s.d, k) && s.d.todo[0].key != k {
      var i :| 0 <= i < |s.d.todo| && s.d.todo[i].key == k;
      assert t.todo[i - 1].key == k;
    }
  }

  lemma ScheduleUpdate(c: Config, s: Sys, k: Key, p: Plan, n: nat)
    requires Enabled(c, s, UpdateNext) && DistinctKeys(InFlight(s.d)) && OnSchedule(c, s, k, p, n)
    ensures OnSchedule(c, Next(c, s, UpdateNext), k, p, n)
  {
    RowEffect(c, s, UpdateNext, k);
    TodoShifts(c, s, k);
    if k in s.w.cache && s.d.todo[0].key == k {
      assert InTodo(s.d, k);
      EarliestGrows(c, p, n);
    }
  }

  lemma SelectTodo(c: Config, s: Sys, st: Step, k: Key)
    requires Enabled(c, s, st) && st.SelectDue?
    ensures var t := Next(c, s, st);
      t.w == s.w && t.d.Updating? && t.d.now == st.now && (InTodo(t.d, k) <==> k in st.order) &&
      (k in st.order ==> Due(c, s.w, st.now, k)) &&
      forall i :: 0 <= i < |t.d.todo| && t.d.todo[i].key == k ==>
        k in s.w.cache && t.d.todo[i].retryNum == s.w.cache[k].retryNum
  {
    SelectedRows(c, s.w, st.now, st.order);
    var t := Next(c, s, st);
    if k in st.order {
      var i :| 0 <= i < |st.order| && st.order[i] == k;
      assert t.d.todo[i].key == k;
    }
    if InTodo(t.d, k) {
      var i :| 0 <= i < |t.d.todo| && t.d.todo[i].key == k;
      assert st.order[i] in st.order;
    }
  }

  /** Every step keeps the schedule, and a selection happens only when it is due. */
  lemma ScheduleStep(c: Config, s: Sys, st: Step, k: Key, p: Plan, n: nat)
    requires Enabled(c, s, st) && DistinctKeys(InFlight(s.d)) && OnSchedule(c, s, k, p, n)
    requires !(Caches(s, st) && KeyOf(st.h) == k)
    ensures OnSchedule(c, Next(c, s, st), k, p, if Selects(st, k) then n + 1 else n)
    ensures Selects(st, k) ==> st.now >= Earliest(c, p, n) && p.count + n < c.maxRetry
  {
    match st
    case UpdateNext => ScheduleUpdate(c, s, k, p, n);
    case SelectDue(_, _) => SelectTodo(c, s, st, k);
    case _ => RowEffect(c, s, st, k);
  }

  // ----- Runs -----

  /** The times of the passes that selected the message. */
  function SelectTimes(steps: seq<Step>, k: Key): (ts: seq<int>)
    decreases |steps|
  {
    if steps == [] then []
    else (if Selects(steps[0], k) then [steps[0].now] else []) + SelectTimes(steps[1..], k)
  }

  /** Retry `n` + j under the plan is not early, for each time in the list. */
  predicate KeepsDelays(c: Config, ts: seq<int>, p: Plan, n: nat) {
    forall j :: 0 <= j < |ts| ==> ts[j] >= Earliest(c, p, n + j)
  }

  lemma DelaysCons(c: Config, first: int, rest: seq<int>, p: Plan, n: nat)
    requires first >= Earliest(c, p, n) && KeepsDelays(c, rest, p, n + 1)
    ensures KeepsDelays(c, [first] + rest, p, n)
  {
    forall j | 0 <= j < |rest| + 1
      ensures ([first] + rest)[j] >= Earliest(c, p, n + j)
    {
      if j > 0 {
        assert rest[j - 1] >= Earliest(c, p, n + 1 + (j - 1));
      }
    }
  }

  lemma {:induction false} ScheduleRun(c: Config, s: Sys, steps: seq<Step>, k: Key, p: Plan, n: nat)
    requires Runs(c, s, steps) && NeverCaches(c, s, steps, k)
    requires DistinctKeys(InFlight(s.d)) && OnSchedule(c, s, k, p, n)
    ensures SelectTimes(steps, k) != [] ==> p.count + n + |SelectTimes(steps, k)| <= c.maxRetry
    ensures KeepsDelays(c, SelectTimes(steps, k), p, n)
    decreases |steps|
  {
    if steps != [] {
      var st := steps[0];
      ScheduleStep(c, s, st, k, p, n);
      PassStaysDistinct(c, s, st);
      if Selects(st, k) {
        ScheduleRun(c, Next(c, s, st), steps[1..], k, p, n + 1);
        DelaysCons(c, st.now, SelectTimes(steps[1..], k), p, n);
      } else {
        ScheduleRun(c, Next(c, s, st), steps[1..], k, p, n);
        assert [] + SelectTimes(steps[1..], k) == SelectTimes(steps[1..], k);
      }
    }
  }

  /** What the server means to do for a message cached at t0. */
  function FreshPlan(t0: int): Plan {
    Plan(0, t0 + 10)
  }

  lemma FreshIsOnSchedule(c: Config, s: Sys, st: Step)
    requires Caches(s, st) && !InTodo(s.d, KeyOf(st.h))
    ensures OnSchedule(c, Next(c, s, st), KeyOf(st.h), FreshPlan(st.now), 0)
  {
    RowEffect(c, s, st, KeyOf(st.h));
    EarliestStarts(c, FreshPlan(st.now));
  }

  lemma FreshBound(c: Config, ts: seq<int>, t0: int)
    requires KeepsDelays(c, ts, FreshPlan(t0), 0)
    ensures forall j :: 0 <= j < |ts| ==> ts[j] >= t0 + 10 + c.interval * (((j + 1) * j) / 2)
  {
    forall j | 0 <= j < |ts|
      ensures ts[j] >= t0 + 10 + c.interval * (((j + 1) * j) / 2)
    {
      TriIsHalfProduct(j);
      assert ts[j] >= Earliest(c, FreshPlan(t0), 0 + j);
    }
  }

  /** A message cached at t0, its key not waiting in a pass under way and not cached again later,
      is selected at most maxRetry times, and its retry number j + 1 comes no earlier than
      t0 + 10 + interval * (j + 1) * j / 2. No assumption about the clock is needed. */
  lemma RetriesAreBoundedAndDelayed(c: Config, s: Sys, st: Step, steps: seq<Step>)
    requires Caches(s, st) && DistinctKeys(InFlight(s.d)) && !InTodo(s.d, KeyOf(st.h))
    requires Runs(c, Next(c, s, st), steps) && NeverCaches(c, Next(c, s, st), steps, KeyOf(st.h))
    ensures var ts := SelectTimes(steps, KeyOf(st.h));
      (ts == [] || |ts| <= c.maxRetry) &&
      forall j :: 0 <= j < |ts| ==> ts[j] >= st.now + 10 + c.interval * (((j + 1) * j) / 2)
  {
    FreshIsOnSchedule(c, s, st);
    PassStaysDistinct(c, s, st);
    ScheduleRun(c, Next(c, s, st), steps, KeyOf(st.h), FreshPlan(st.now), 0);
    FreshBound(c, SelectTimes(steps, KeyOf(st.h)), st.now);
  }
}
