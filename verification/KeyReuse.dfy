/** The one way the retry delay fails: a key is cached anew while an old copy of it still waits for
    its row update. The pass then writes the old copy's count and time into the new row. The delay
    holds in every continuation exactly when that cannot bring the first retry forward. */
module KeyReuse {
  import opened Backoff
  import opened NoLoss
  import opened Retries
  import opened Server

  // ----- The old copy -----

  predicate WaitsAs(d: Daemon, x: Selected) {
    d.Updating? && exists i :: 0 <= i < |d.todo| && d.todo[i] == x
  }

  /** What the row update of `x` in a pass at `now` makes of the schedule. */
  function OldPlan(c: Config, x: Selected, now: int): Plan {
    Plan(x.retryNum + 1, now + (x.retryNum + 1) * c.interval)
  }

  /** While the row is cached, the old copy `x` still waits for its update in the pass at `now`. */
  ghost predicate Haunted(s: Sys, x: Selected, now: int) {
    x.key in s.w.cache ==> WaitsAs(s.d, x) && s.d.now == now
  }

  lemma HauntedUpdate(c: Config, s: Sys, x: Selected, now: int)
    requires Enabled(c, s, UpdateNext) && DistinctKeys(InFlight(s.d)) && Haunted(s, x, now)
    ensures Haunted(Next(c, s, UpdateNext), x, now) ||
      OnSchedule(c, Next(c, s, UpdateNext), x.key, OldPlan(c, x, now), 0)
  {
    var t := Next(c, s, UpdateNext);
    RowEffect(c, s, UpdateNext, x.key);
    TodoShifts(c, s, x.key);
    TodoDistinct(s.d, 0);
    EarliestStarts(c, OldPlan(c, x, now));
    if x.key in s.w.cache {
      var i :| 0 <= i < |s.d.todo| && s.d.todo[i] == x;
      if i > 0 {
        assert t.d.todo[i - 1] == x;
      }
    }
  }

  lemma HauntedStep(c: Config, s: Sys, st: Step, x: Selected, now: int)
    requires Enabled(c, s, st) && DistinctKeys(InFlight(s.d)) && Haunted(s, x, now)
    requires !(Caches(s, st) && KeyOf(st.h) == x.key)
    ensures !Selects(st, x.key)
    ensures Haunted(Next(c, s, st), x, now) || OnSchedule(c, Next(c, s, st), x.key, OldPlan(c, x, now), 0)
  {
    RowEffect(c, s, st, x.key);
    match st
    case UpdateNext => HauntedUpdate(c, s, x, now);
    case SelectDue(_, _) => SelectTodo(c, s, st, x.key);
    case _ =>
  }

  lemma {:induction false} HauntedRun(c: Config, s: Sys, steps: seq<Step>, x: Selected, now: int)
    requires Runs(c, s, steps) && NeverCaches(c, s, steps, x.key)
    requires DistinctKeys(InFlight(s.d)) && Haunted(s, x, now)
    ensures SelectTimes(steps, x.key) != [] ==> x.retryNum + 1 < c.maxRetry
    ensures KeepsDelays(c, SelectTimes(steps, x.key), OldPlan(c, x, now), 0)
    decreases |steps|
  {
    if steps != [] {
      var t := Next(c, s, steps[0]);
      HauntedStep(c, s, steps[0], x, now);
      PassStaysDistinct(c, s, steps[0]);
      if Haunted(t, x, now) {
        HauntedRun(c, t, steps[1..], x, now);
      } else {
        ScheduleRun(c, t, steps[1..], x.key, OldPlan(c, x, now), 0);
      }
      assert [] + SelectTimes(steps[1..], x.key) == SelectTimes(steps[1..], x.key);
    }
  }

  /** A later plan with a higher count keeps the delays of an earlier one. */
  lemma LaterPlan(c: Config, ts: seq<int>, p: Plan, q: Plan)
    requires c.interval >= 0 && q.count <= p.count && q.due <= p.due && KeepsDelays(c, ts, p, 0)
    ensures KeepsDelays(c, ts, q, 0)
  {
    forall j | 0 <= j < |ts|
      ensures ts[j] >= Earliest(c, q, 0 + j)
    {
      assert ts[j] >= Earliest(c, p, 0 + j);
      PlansCompare(c, p, q, j);
    }
  }

  lemma PlansCompare(c: Config, p: Plan, q: Plan, j: nat)
    requires c.interval >= 0 && q.count <= p.count && q.due <= p.due
    ensures Earliest(c, q, j) <= Earliest(c, p, j)
  {
    MulGrows(q.count, p.count, j);
    MulGrows(q.count * j + Tri(j), p.count * j + Tri(j), c.interval);
  }

  lemma MulGrows(a: nat, b: nat, m: nat)
    requires a <= b
    ensures a * m <= b * m && m * a <= m * b
  {
  }

  // ----- A continuation that hurries -----

  /** The daemon's own next step, when it is not idle. */
  function DaemonStep(d: Daemon): Step
    requires !d.Idle?
  {
    match d
    case Updating(_, todo, _) => if todo != [] then UpdateNext else StartSends
    case Sending(batch) => if batch != [] then SendNext else EndPass
  }

  function Left(d: Daemon): nat {
    match d
    case Idle => 0
    case Updating(_, todo, batch) => 2 + 2 * |todo| + |batch|
    case Sending(batch) => 1 + |batch|
  }

  predicate Quiet(steps: seq<Step>) {
    forall i :: 0 <= i < |steps| ==> !steps[i].Request? && !steps[i].SelectDue?
  }

  /** The row of x.key once the pass is over, if nothing else happens. */
  function Settled(c: Config, s: Sys, x: Selected): Row
    requires x.key in s.w.cache
  {
    if WaitsAs(s.d, x) then Updated(c, s.w.cache[x.key], s.d.now, x.retryNum) else s.w.cache[x.key]
  }

  lemma SettledStep(c: Config, s: Sys, x: Selected)
    requires !s.d.Idle? && x.key in s.w.cache && DistinctKeys(InFlight(s.d))
    requires InTodo(s.d, x.key) ==> WaitsAs(s.d, x)
    ensures Enabled(c, s, DaemonStep(s.d))
    ensures var t := Next(c, s, DaemonStep(s.d));
      x.key in t.w.cache && (InTodo(t.d, x.key) ==> WaitsAs(t.d, x)) && Settled(c, t, x) == Settled(c, s, x) &&
      Left(t.d) < Left(s.d)
  {
    var st := DaemonStep(s.d);
    var t := Next(c, s, st);
    RowEffect(c, s, st, x.key);
    if st.UpdateNext? {
      TodoShifts(c, s, x.key);
      TodoDistinct(s.d, 0);
      if WaitsAs(s.d, x) {
        var i :| 0 <= i < |s.d.todo| && s.d.todo[i] == x;
        if i > 0 {
          assert t.d.todo[i - 1] == x;
        }
      }
      if WaitsAs(t.d, x) {
        var i :| 0 <= i < |t.d.todo| && t.d.todo[i] == x;
        assert s.d.todo[i + 1] == x;
      }
    }
  }

  /** The pass can finish undisturbed. */
  lemma {:induction false} FinishPass(c: Config, s: Sys, x: Selected) returns (steps: seq<Step>)
    requires x.key in s.w.cache && DistinctKeys(InFlight(s.d))
    requires InTodo(s.d, x.key) ==> WaitsAs(s.d, x)
    ensures Runs(c, s, steps) && Quiet(steps) && End(c, s, steps).d.Idle?
    ensures x.key in End(c, s, steps).w.cache && End(c, s, steps).w.cache[x.key] == Settled(c, s, x)
    decreases Left(s.d)
  {
    steps := [];
    if !s.d.Idle? {
      var st := DaemonStep(s.d);
      SettledStep(c, s, x);
      PassStaysDistinct(c, s, st);
      var rest := FinishPass(c, Next(c, s, st), x);
      steps := [st] + rest;
      assert steps[1..] == rest;
    }
  }

  lemma {:induction false} ListKeys(keys: set<Key>) returns (order: seq<Key>)
    ensures forall k :: k in order <==> k in keys
    ensures forall i, j :: 0 <= i < j < |order| ==> order[i] != order[j]
    decreases keys
  {
    order := [];
    if keys != {} {
      var k :| k in keys;
      var rest := ListKeys(keys - {k});
      order := [k] + rest;
      assert forall j :: 0 <= j < |rest| ==> rest[j] in rest;
    }
  }

  lemma SomeOrder(c: Config, w: World, now: int) returns (order: seq<Key>)
    ensures DueOrder(c, w, now, order)
  {
    order := ListKeys(set k | k in w.cache && Due(c, w, now, k));
  }

  /** A quiet run followed by a selection. */
  lemma {:induction false} ThenSelect(c: Config, s: Sys, steps: seq<Step>, now: int, order: seq<Key>, k: Key)
    requires Runs(c, s, steps) && Quiet(steps) && Enabled(c, End(c, s, steps), SelectDue(now, order))
    ensures var all := steps + [SelectDue(now, order)];
      Runs(c, s, all) && NeverCaches(c, s, all, k) && SelectTimes(all, k) == if k in order then [now] else []
    decreases |steps|
  {
    var all := steps + [SelectDue(now, order)];
    if steps == [] {
      assert all[1..] == [];
      assert SelectTimes(all, k) == (if k in order then [now] else []) + [];
    } else {
      assert all[1..] == steps[1..] + [SelectDue(now, order)];
      assert !steps[0].Request? && !steps[0].SelectDue?;
      ThenSelect(c, Next(c, s, steps[0]), steps[1..], now, order, k);
      assert SelectTimes(all, k) == [] + SelectTimes(all[1..], k);
    }
  }

  // ----- The exact condition -----

  /** An old copy waits whose update would make the first retry due before t0 + 10, and leave it
      within the cap. */
  predicate Hurried(c: Config, s: Sys, k: Key, t0: int) {
    s.d.Updating? && exists i :: 0 <= i < |s.d.todo| && Hurries(c, s.d.todo[i], s.d.now, k, t0)
  }

  predicate Hurries(c: Config, x: Selected, now: int, k: Key, t0: int) {
    x.key == k && x.retryNum + 1 < c.maxRetry && OldPlan(c, x, now).due < t0 + 10
  }

  /** In every continuation that does not cache the key again, the delays are kept. */
  ghost predicate AlwaysDelayed(c: Config, s: Sys, st: Step)
    requires Caches(s, st)
  {
    forall steps | Runs(c, Next(c, s, st), steps) && NeverCaches(c, Next(c, s, st), steps, KeyOf(st.h)) ::
      KeepsDelays(c, SelectTimes(steps, KeyOf(st.h)), FreshPlan(st.now), 0)
  }

  lemma DelayedUnlessHurried(c: Config, s: Sys, st: Step, steps: seq<Step>)
    requires Caches(s, st) && DistinctKeys(InFlight(s.d)) && c.interval >= 0
    requires !Hurried(c, s, KeyOf(st.h), st.now)
    requires Runs(c, Next(c, s, st), steps) && NeverCaches(c, Next(c, s, st), steps, KeyOf(st.h))
    ensures KeepsDelays(c, SelectTimes(steps, KeyOf(st.h)), FreshPlan(st.now), 0)
  {
    var k := KeyOf(st.h);
    var t := Next(c, s, st);
    PassStaysDistinct(c, s, st);
    if InTodo(s.d, k) {
      var i :| 0 <= i < |s.d.todo| && s.d.todo[i].key == k;
      var x := s.d.todo[i];
      assert Haunted(t, x, s.d.now);
      HauntedRun(c, t, steps, x, s.d.now);
      if SelectTimes(steps, k) != [] {
        LaterPlan(c, SelectTimes(steps, k), OldPlan(c, x, s.d.now), FreshPlan(st.now));
      }
    } else {
      FreshIsOnSchedule(c, s, st);
      ScheduleRun(c, t, steps, k, FreshPlan(st.now), 0);
    }
  }

  /** The pass ends and the next one selects the message, if its row is due then. */
  lemma FinishAndSelect(c: Config, s: Sys, x: Selected, now: int) returns (steps: seq<Step>)
    requires x.key in s.w.cache && DistinctKeys(InFlight(s.d)) && (InTodo(s.d, x.key) ==> WaitsAs(s.d, x))
    requires Settled(c, s, x).retryNum < c.maxRetry && Settled(c, s, x).retryTime <= now
    ensures Runs(c, s, steps) && NeverCaches(c, s, steps, x.key) && SelectTimes(steps, x.key) == [now]
  {
    var quiet := FinishPass(c, s, x);
    var end := End(c, s, quiet);
    var order := SomeOrder(c, end.w, now);
    assert Due(c, end.w, now, x.key);
    ThenSelect(c, s, quiet, now, order, x.key);
    steps := quiet + [SelectDue(now, order)];
  }

  /** The failing run: the pass ends, and the next one selects the message too early, though not
      before it came in. */
  lemma HurriedRun(c: Config, s: Sys, st: Step) returns (steps: seq<Step>, now: int)
    requires Caches(s, st) && DistinctKeys(InFlight(s.d)) && Hurried(c, s, KeyOf(st.h), st.now)
    ensures Runs(c, Next(c, s, st), steps) && NeverCaches(c, Next(c, s, st), steps, KeyOf(st.h))
    ensures SelectTimes(steps, KeyOf(st.h)) == [now] && st.now <= now < st.now + 10
  {
    var k := KeyOf(st.h);
    var t := Next(c, s, st);
    var i :| 0 <= i < |s.d.todo| && Hurries(c, s.d.todo[i], s.d.now, k, st.now);
    var x := s.d.todo[i];
    RowEffect(c, s, st, k);
    PassStaysDistinct(c, s, st);
    assert t.d == s.d && WaitsAs(t.d, x);
    var due := OldPlan(c, x, s.d.now).due;
    now := if due < st.now then st.now else due;
    steps := FinishAndSelect(c, t, x, now);
  }

  /** Exactly when a message cached at t0 can be retried early: when an old copy of its key waits
      whose pass time plus its next delay falls before t0 + 10, within the cap. */
  lemma DelayKeptIff(c: Config, s: Sys, st: Step)
    requires Caches(s, st) && DistinctKeys(InFlight(s.d)) && c.interval >= 0
    ensures AlwaysDelayed(c, s, st) <==> !Hurried(c, s, KeyOf(st.h), st.now)
  {
    var k := KeyOf(st.h);
    if Hurried(c, s, k, st.now) {
      var steps, now := HurriedRun(c, s, st);
      EarliestStarts(c, FreshPlan(st.now));
      assert SelectTimes(steps, k)[0] == now;
      assert !KeepsDelays(c, SelectTimes(steps, k), FreshPlan(st.now), 0) by {
        assert [now][0] < Earliest(c, FreshPlan(st.now), 0 + 0);
      }
    } else {
      forall steps | Runs(c, Next(c, s, st), steps) && NeverCaches(c, Next(c, s, st), steps, k)
        ensures KeepsDelays(c, SelectTimes(steps, k), FreshPlan(st.now), 0)
      {
        DelayedUnlessHurried(c, s, st, steps);
      }
    }
  }

  // ----- It happens -----

  /** The message of NoLoss arrives at 0, is selected at 10 and acknowledged before its row update. */
  lemma ThreeSteps(c: Config) returns (s: Sys, steps: seq<Step>)
    requires c == Config(3, 10)
    ensures |steps| == 3 && Runs(c, Start(), steps) && End(c, Start(), steps) == s
    ensures s.w.cache == map[] && s.d == Updating(10, [Selected(KeyOf(Message()), COMPLETE_MESSAGE, [7], 0)], [])
  {
    var k := KeyOf(Message());
    var cache, select, settle := Request(Message(), 0, true), SelectDue(10, [k]), Request(Receipt(), 10, true);
    MessageCached();
    var s1 := Next(c, Start(), cache);
    assert DueOrder(c, s1.w, 10, [k]);
    var s2 := Next(c, s1, select);
    assert s2 == Sys(s1.w, Updating(10, SelectRows(s1.w, [k]), []));
    assert SelectRows(s1.w, [k]) == [Selected(k, COMPLETE_MESSAGE, [7], 0)];
    MessageAcknowledged(s2.w);
    s := Next(c, s2, settle);
    RunCons(c, s2, settle, []);
    RunCons(c, s1, select, [settle] + []);
    RunCons(c, Start(), cache, [select] + ([settle] + []));
    steps := [cache] + ([select] + ([settle] + []));
  }

  /** With three retries at intervals of ten, as the shipped configuration has them: a message
      cached at 0 is selected at 10 and acknowledged; if its key comes again at 11, before the row
      update, its first retry is due at 20. */
  lemma HurriedIsReachable() returns (steps: seq<Step>)
    ensures var c := Config(3, 10);
      |steps| == 3 && Runs(c, Start(), steps) && Caches(End(c, Start(), steps), Request(Message(), 11, true)) &&
      Hurried(c, End(c, Start(), steps), KeyOf(Message()), 11)
  {
    var c := Config(3, 10);
    var s;
    s, steps := ThreeSteps(c);
    assert Hurries(c, s.d.todo[0], 10, KeyOf(Message()), 11);
  }
}
