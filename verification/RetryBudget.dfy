/** The retry cap over whole runs, as a budget: what is left of it over all cached rows falls with
    every row update and rises only when a message is cached. Keys may be reused freely. */
module RetryBudget {
  import opened Coder
  import opened Server
  import opened Retries
  import Backoff

  /** Retries left over all cached rows. */
  ghost function Slack(c: Config, m: map<Key, Row>): int
    decreases m.Keys
  {
    if m.Keys == {} then 0
    else
      var k :| k in m.Keys;
      NoLoss.RemoveShrinks(m, k);
      Slack(c, m - {k}) + (c.maxRetry - m[k].retryNum)
  }

  lemma {:induction false} SlackTakes(c: Config, m: map<Key, Row>, k: Key)
    requires k in m
    ensures Slack(c, m) == Slack(c, m - {k}) + (c.maxRetry - m[k].retryNum)
    decreases m.Keys
  {
    var j :| j in m.Keys && Slack(c, m) == Slack(c, m - {j}) + (c.maxRetry - m[j].retryNum);
    if j != k {
      NoLoss.RemoveShrinks(m, j);
      SlackTakes(c, m - {j}, k);
      NoLoss.RemoveShrinks(m, k);
      SlackTakes(c, m - {k}, j);
      NoLoss.RemoveBoth(m, j, k);
    }
  }

  lemma SlackReplaces(c: Config, m: map<Key, Row>, k: Key, row: Row)
    ensures Slack(c, m[k := row]) ==
      Slack(c, m - {k}) + (c.maxRetry - row.retryNum)
  {
    SlackTakes(c, m[k := row], k);
    assert m[k := row] - {k} == m - {k};
  }

  /** No row was retried more often than allowed, and a row waiting for its update was not retried
      since it was selected, even if its key was cached anew. */
  ghost predicate Capped(c: Config, s: Sys) {
    && c.maxRetry >= 0
    && (forall k :: k in s.w.cache ==> s.w.cache[k].retryNum <= c.maxRetry)
    && (s.d.Updating? ==> forall i :: 0 <= i < |s.d.todo| ==> Waits(c, s.w, s.d.todo[i]))
    && DistinctKeys(InFlight(s.d))
  }

  predicate Waits(c: Config, w: World, x: Selected) {
    x.retryNum < c.maxRetry && (x.key in w.cache ==> w.cache[x.key].retryNum <= x.retryNum)
  }

  /** The step raises the retry count of a cached row. */
  predicate Charges(s: Sys, st: Step) {
    st.UpdateNext? && s.d.Updating? && s.d.todo != [] && s.d.todo[0].key in s.w.cache
  }

  lemma CappedWorld(c: Config, s: Sys, st: Step, k: Key)
    requires Enabled(c, s, st) && Capped(c, s) && k in Next(c, s, st).w.cache
    ensures Next(c, s, st).w.cache[k].retryNum <= c.maxRetry
  {
    RowEffect(c, s, st, k);
  }

  lemma WaitingRowKept(c: Config, s: Sys, st: Step, x: Selected)
    requires Enabled(c, s, st) && Waits(c, s.w, x)
    requires st.UpdateNext? ==> s.d.todo[0].key != x.key
    ensures Waits(c, Next(c, s, st).w, x)
  {
    RowEffect(c, s, st, x.key);
  }

  lemma CappedTodo(c: Config, s: Sys, st: Step)
    requires Enabled(c, s, st) && Capped(c, s) && Next(c, s, st).d.Updating?
    ensures var t := Next(c, s, st); forall i :: 0 <= i < |t.d.todo| ==> Waits(c, t.w, t.d.todo[i])
  {
    var t := Next(c, s, st);
    if st.SelectDue? {
      SelectedRows(c, s.w, st.now, st.order);
    } else {
      forall i | 0 <= i < |t.d.todo|
        ensures Waits(c, t.w, t.d.todo[i])
      {
        if st.UpdateNext? {
          Backoff.TodoDistinct(s.d, 0);
          assert t.d.todo[i] == s.d.todo[i + 1];
        }
        WaitingRowKept(c, s, st, t.d.todo[i]);
      }
    }
  }

  lemma CappedStep(c: Config, s: Sys, st: Step)
    requires Enabled(c, s, st) && Capped(c, s)
    ensures Capped(c, Next(c, s, st))
  {
    PassStaysDistinct(c, s, st);
    forall k | k in Next(c, s, st).w.cache
      ensures Next(c, s, st).w.cache[k].retryNum <= c.maxRetry
    {
      CappedWorld(c, s, st, k);
    }
    if Next(c, s, st).d.Updating? {
      CappedTodo(c, s, st);
    }
  }

  /** A row update of a row still present strictly lowers what is left; caching a message adds
      maxRetry; nothing else raises it. */
  lemma SlackStep(c: Config, s: Sys, st: Step)
    requires Enabled(c, s, st) && Capped(c, s)
    ensures var before, after := Slack(c, s.w.cache), Slack(c, Next(c, s, st).w.cache);
      if Charges(s, st) then after < before
      else if Caches(s, st) then after == before + c.maxRetry
      else after <= before
  {
    var m := s.w.cache;
    if st.Request? {
      RequestSlack(c, s.w, st.h, st.now, st.ok);
    } else {
      OtherTables(c, s, st);
      if Charges(s, st) {
        var x := s.d.todo[0];
        assert Waits(c, s.w, x);
        SlackReplaces(c, m, x.key, UpdateRow(c, s.w, s.d.now, x).cache[x.key]);
        SlackTakes(c, m, x.key);
      }
    }
  }

  lemma RequestSlack(c: Config, w: World, h: Head, now: int, ok: bool)
    requires forall k :: k in w.cache ==> w.cache[k].retryNum <= c.maxRetry
    ensures var after := Slack(c, AccessToLogic(w, h, now, ok).cache);
      if h.kind == COMPLETE_MESSAGE && Accepts(w, h, ok) then after == Slack(c, w.cache) + c.maxRetry
      else after <= Slack(c, w.cache)
  {
    var m := w.cache;
    if h.kind == SIMPLE_MESSAGE {
      SimpleTables(w, h, now, ok);
    } else if h.kind == COMPLETE_MESSAGE {
      CompleteTables(w, h, now, ok);
      if Accepts(w, h, ok) {
        SlackReplaces(c, m, KeyOf(h), Row(h.kind, CString(h.content), now, 0, now + 10));
        assert m - {KeyOf(h)} == m;
      }
    } else if h.kind == RECEIPT && Matches(w, h) {
      SlackTakes(c, m, ReceiptKey(h));
    }
  }

  lemma {:induction false} SlackIsNonNegative(c: Config, m: map<Key, Row>)
    requires forall k :: k in m ==> m[k].retryNum <= c.maxRetry
    ensures Slack(c, m) >= 0
    decreases m.Keys
  {
    if m.Keys != {} {
      var k :| k in m.Keys && Slack(c, m) == Slack(c, m - {k}) + (c.maxRetry - m[k].retryNum);
      NoLoss.RemoveShrinks(m, k);
      SlackIsNonNegative(c, m - {k});
    }
  }

  ghost function ChargeCount(c: Config, s: Sys, steps: seq<Step>): nat
    requires Runs(c, s, steps)
    decreases |steps|
  {
    if steps == [] then 0
    else (if Charges(s, steps[0]) then 1 else 0) + ChargeCount(c, Next(c, s, steps[0]), steps[1..])
  }

  ghost function CacheCount(c: Config, s: Sys, steps: seq<Step>): nat
    requires Runs(c, s, steps)
    decreases |steps|
  {
    if steps == [] then 0
    else (if Caches(s, steps[0]) then 1 else 0) + CacheCount(c, Next(c, s, steps[0]), steps[1..])
  }

  lemma BudgetChain(max: int, charge: int, cached: int, charges: int, caches: int, before: int, mid: int, after: int)
    requires charge + mid <= before + max * cached
    requires charges + after <= mid + max * caches
    ensures (charge + charges) + after <= before + max * (cached + caches)
  {
    assert max * (cached + caches) == max * cached + max * caches;
  }

  /** The retry cap holds in every reachable state, and a whole run makes at most as many row
      updates as the rows at its start had left plus maxRetry for each message cached. */
  lemma {:induction false} BudgetOverRun(c: Config, s: Sys, steps: seq<Step>)
    requires Runs(c, s, steps) && Capped(c, s)
    ensures Capped(c, End(c, s, steps))
    ensures ChargeCount(c, s, steps) + Slack(c, End(c, s, steps).w.cache) <=
      Slack(c, s.w.cache) + c.maxRetry * CacheCount(c, s, steps)
    decreases |steps|
  {
    if steps == [] {
      assert c.maxRetry * 0 == 0;
    } else {
      var t := Next(c, s, steps[0]);
      CappedStep(c, s, steps[0]);
      StepCharge(c, s, steps[0]);
      BudgetOverRun(c, t, steps[1..]);
      BudgetChain(c.maxRetry, if Charges(s, steps[0]) then 1 else 0, if Caches(s, steps[0]) then 1 else 0,
        ChargeCount(c, t, steps[1..]), CacheCount(c, t, steps[1..]),
        Slack(c, s.w.cache), Slack(c, t.w.cache), Slack(c, End(c, t, steps[1..]).w.cache));
    }
  }

  lemma StepCharge(c: Config, s: Sys, st: Step)
    requires Enabled(c, s, st) && Capped(c, s)
    ensures (if Charges(s, st) then 1 else 0) + Slack(c, Next(c, s, st).w.cache) <=
      Slack(c, s.w.cache) + c.maxRetry * (if Caches(s, st) then 1 else 0)
  {
    SlackStep(c, s, st);
  }

  lemma RetriesAreBudgeted(c: Config, s: Sys, steps: seq<Step>)
    requires Runs(c, s, steps) && Capped(c, s)
    ensures ChargeCount(c, s, steps) <= Slack(c, s.w.cache) + c.maxRetry * CacheCount(c, s, steps)
  {
    BudgetOverRun(c, s, steps);
    SlackIsNonNegative(c, End(c, s, steps).w.cache);
  }
}
