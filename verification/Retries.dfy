/** The retransmission daemon over whole runs: each key at most once in a pass, and what a receipt
    stops: no resurrection of acknowledged messages, at most one further copy, then silence. */
module Retries {
  import opened Coder
  import opened Server
  import NoLoss

  // ----- The cache under each step -----

  /** What a step does to the row of one key. */
  lemma RowEffect(c: Config, s: Sys, st: Step, k: Key)
    requires Enabled(c, s, st)
    ensures var t := Next(c, s, st);
      if Caches(s, st) && KeyOf(st.h) == k then
        k in t.w.cache && t.w.cache[k] == Row(st.h.kind, CString(st.h.content), st.now, 0, st.now + 10)
      else if Settles(s, st) && ReceiptKey(st.h) == k then k !in t.w.cache
      else if st.UpdateNext? && s.d.todo[0].key == k then
        (k in t.w.cache <==> k in s.w.cache) &&
        (k in s.w.cache ==> t.w.cache[k] == Updated(c, s.w.cache[k], s.d.now, s.d.todo[0].retryNum))
      else (k in t.w.cache <==> k in s.w.cache) && (k in s.w.cache ==> t.w.cache[k] == s.w.cache[k])
  {
    if st.Request? {
      SimpleTables(s.w, st.h, st.now, st.ok);
      CompleteTables(s.w, st.h, st.now, st.ok);
    } else {
      OtherTables(c, s, st);
    }
  }

  function Updated(c: Config, row: Row, now: int, selectedWith: nat): Row {
    row.(retryNum := selectedWith + 1, retryTime := now + (selectedWith + 1) * c.interval)
  }

  // ----- Copies in flight -----

  predicate DistinctKeys(xs: seq<Selected>) {
    forall i, j :: 0 <= i < j < |xs| ==> xs[i].key != xs[j].key
  }

  /** Everything the current pass still carries, in order. */
  function InFlight(d: Daemon): seq<Selected> {
    match d
    case Idle => []
    case Updating(_, todo, batch) => batch + todo
    case Sending(batch) => batch
  }

  predicate Carries(d: Daemon, k: Key) {
    exists i :: 0 <= i < |InFlight(d)| && InFlight(d)[i].key == k
  }

  function FlightCount(d: Daemon, k: Key): nat {
    if Carries(d, k) then 1 else 0
  }

  /** Copies of a message that have left the server. */
  function Copies(log: seq<Event>, k: Key): nat
    decreases |log|
  {
    if log == [] then 0 else Copies(log[..|log| - 1], k) + (if IsCopy(log[|log| - 1], k) then 1 else 0)
  }

  predicate IsCopy(e: Event, k: Key) {
    (e.Deliver? || e.Retry?) && e.key == k
  }

  lemma CopiesAppend(log: seq<Event>, e: Event, k: Key)
    ensures Copies(log + [e], k) == Copies(log, k) + (if IsCopy(e, k) then 1 else 0)
  {
    assert (log + [e])[..|log|] == log;
  }

  /** The daemon's own steps keep the keys of a pass distinct. */
  lemma PassStaysDistinct(c: Config, s: Sys, st: Step)
    requires Enabled(c, s, st) && DistinctKeys(InFlight(s.d))
    ensures DistinctKeys(InFlight(Next(c, s, st).d))
  {
    match st
    case UpdateNext => FlightMoves(s.d.todo, s.d.batch);
    case SelectDue(now, order) => SelectedFlight(c, s, now, order);
    case StartSends => assert s.d.batch + s.d.todo == s.d.batch;
    case _ =>
  }

  lemma FlightMoves(todo: seq<Selected>, batch: seq<Selected>)
    requires todo != []
    ensures (batch + [todo[0]]) + todo[1..] == batch + todo
  {
  }

  lemma SelectedRows(c: Config, w: World, now: int, order: seq<Key>)
    requires DueOrder(c, w, now, order)
    ensures forall i :: 0 <= i < |order| ==> Due(c, w, now, order[i])
    ensures forall k :: k in order ==> k in w.cache
    ensures forall i :: 0 <= i < |order| ==> SelectRows(w, order)[i].key == order[i]
  {
    assert forall i :: 0 <= i < |order| ==> order[i] in order;
  }

  /** A fresh pass carries exactly the due keys. */
  lemma SelectedFlight(c: Config, s: Sys, now: int, order: seq<Key>)
    requires Enabled(c, s, SelectDue(now, order))
    ensures var f := InFlight(Next(c, s, SelectDue(now, order)).d);
      |f| == |order| && forall i :: 0 <= i < |f| ==> f[i].key == order[i] && Due(c, s.w, now, order[i])
  {
    SelectedRows(c, s.w, now, order);
    var f := SelectRows(s.w, order);
    assert [] + f == f;
    assert Next(c, s, SelectDue(now, order)).d == Updating(now, f, []);
  }

  lemma LoggedCopies(w: World, user: U32, make: int -> Event, k: Key)
    requires forall b :: !IsCopy(make(b), k)
    ensures Copies(Logged(w, user, make).log, k) == Copies(w.log, k)
  {
    var b := BeamFor(w, user);
    if b.Some? {
      CopiesAppend(w.log, make(b.value.beam), k);
    }
  }

  lemma AnsweredCopies(w: World, user: U32, sates: seq<Beams.SateParam>, k: Key)
    ensures Copies(Answered(w, user, sates).log, k) == Copies(w.log, k)
  {
    var b := Beams.Choose(sates, w.configured);
    if b.Some? {
      CopiesAppend(w.log, Reply(user, b.value.beam), k);
    }
  }

  /** Only the step that caches k, or the daemon's send of k, adds a copy of k. */
  lemma CopiesEffect(c: Config, s: Sys, st: Step, k: Key)
    requires Enabled(c, s, st) && !(Caches(s, st) && KeyOf(st.h) == k)
    ensures Copies(Next(c, s, st).w.log, k) <= Copies(s.w.log, k) +
      (if st.SendNext? && s.d.batch[0].key == k then 1 else 0)
  {
    match st
    case Request(h, now, ok) => RequestCopies(s, h, now, ok, k);
    case Login(user, report) =>
      if report != [] {
        AnsweredCopies(if user in s.w.users then StoreCover(s.w, user, Beams.CoverOf(report)) else s.w, user, report, k);
      }
    case Mobile(user, report) =>
      if report != [] {
        AnsweredCopies(StoreCover(s.w, user, Beams.CoverOf(report)), user, report, k);
      }
    case Logout(user) => AnsweredCopies(StoreCover(s.w, user, Beams.NoCover()), user, SatesOf(s.w, user), k);
    case SendNext => SendCopies(s.w, s.d.batch[0], k);
    case _ =>
  }

  lemma SendCopies(w: World, x: Selected, k: Key)
    ensures Copies(SendRetry(w, x).log, k) <= Copies(w.log, k) + (if x.key == k then 1 else 0)
  {
    var b := BeamFor(w, x.key.toId);
    if b.Some? {
      CopiesAppend(w.log, Retry(x.key, EncodeItem(RetryItem(x)), b.value.beam), k);
    }
  }

  lemma RequestCopies(s: Sys, h: Head, now: int, ok: bool, k: Key)
    requires !(Caches(s, Request(h, now, ok)) && KeyOf(h) == k)
    ensures Copies(AccessToLogic(s.w, h, now, ok).log, k) == Copies(s.w.log, k)
  {
    var w := s.w;
    if h.kind == SIMPLE_MESSAGE && ok {
      var archived := w.(store := w.store + [StoreRow(h.fromId, h.toId, h.frameId, h.kind, CString(h.content), now, now)]);
      LoggedCopies(archived, h.toId, b => Plain(KeyOf(h), EncodeHead(h), b), k);
    } else if h.kind == COMPLETE_MESSAGE && Accepts(w, h, ok) {
      var cached := w.(cache := w.cache[KeyOf(h) := Row(h.kind, CString(h.content), now, 0, now + 10)]);
      var acked := Logged(cached, h.fromId, b => Ack(KeyOf(h), b));
      LoggedCopies(cached, h.fromId, b => Ack(KeyOf(h), b), k);
      LoggedCopies(acked, h.toId, b => Deliver(KeyOf(h), EncodeHead(h), b), k);
    }
  }

  lemma FlightSends(batch: seq<Selected>, k: Key)
    requires batch != [] && DistinctKeys(batch)
    ensures FlightCount(Sending(batch[1..]), k) + (if batch[0].key == k then 1 else 0) <= FlightCount(Sending(batch), k)
  {
    assert InFlight(Sending(batch)) == batch;
    if Carries(Sending(batch[1..]), k) {
      var i :| 0 <= i < |batch| - 1 && batch[1..][i].key == k;
      assert batch[i + 1].key == k;
    }
  }

  lemma FlightEffect(c: Config, s: Sys, st: Step, k: Key)
    requires Enabled(c, s, st) && DistinctKeys(InFlight(s.d)) && k !in s.w.cache
    ensures FlightCount(Next(c, s, st).d, k) +
      (if st.SendNext? && s.d.batch[0].key == k then 1 else 0) <= FlightCount(s.d, k)
  {
    match st
    case UpdateNext => FlightMoves(s.d.todo, s.d.batch);
    case SelectDue(now, order) => SelectedFlight(c, s, now, order);
    case StartSends => assert s.d.batch + s.d.todo == s.d.batch;
    case SendNext => FlightSends(s.d.batch, k);
    case _ =>
  }

  /** The run never caches this key again. */
  ghost predicate NeverCaches(c: Config, s: Sys, steps: seq<Step>, k: Key)
    requires Runs(c, s, steps)
    decreases |steps|
  {
    steps != [] ==>
      !(Caches(s, steps[0]) && KeyOf(steps[0].h) == k) && NeverCaches(c, Next(c, s, steps[0]), steps[1..], k)
  }

  /** A row that is gone stays gone, and of its message only the copy that the current pass already
      carries can still leave: copies sent plus copies carried never grow. */
  lemma {:induction false} NoResurrection(c: Config, s: Sys, steps: seq<Step>, k: Key)
    requires Runs(c, s, steps) && NeverCaches(c, s, steps, k)
    requires k !in s.w.cache && DistinctKeys(InFlight(s.d))
    ensures var t := End(c, s, steps);
      k !in t.w.cache && DistinctKeys(InFlight(t.d)) &&
      Copies(t.w.log, k) + FlightCount(t.d, k) <= Copies(s.w.log, k) + FlightCount(s.d, k)
    decreases |steps|
  {
    if steps != [] {
      var st := steps[0];
      RowEffect(c, s, st, k);
      PassStaysDistinct(c, s, st);
      CopiesEffect(c, s, st, k);
      FlightEffect(c, s, st, k);
      NoResurrection(c, Next(c, s, st), steps[1..], k);
    }
  }

  /** Once a message is neither cached nor carried, no copy of it leaves in any later pass. */
  lemma QuietForGood(c: Config, s: Sys, steps: seq<Step>, k: Key)
    requires Runs(c, s, steps) && NeverCaches(c, s, steps, k)
    requires k !in s.w.cache && DistinctKeys(InFlight(s.d)) && !Carries(s.d, k)
    ensures Copies(End(c, s, steps).w.log, k) == Copies(s.w.log, k)
  {
    NoResurrection(c, s, steps, k);
    CopiesOnlyGrow(c, s, steps, k);
  }

  /** After the addressee's receipt, wherever in a pass it lands: at most one further copy, and
      none if the pass does not carry the message. */
  lemma AfterReceipt(c: Config, s: Sys, st: Step, steps: seq<Step>)
    requires Enabled(c, s, st) && Settles(s, st) && DistinctKeys(InFlight(s.d))
    requires Runs(c, Next(c, s, st), steps) && NeverCaches(c, Next(c, s, st), steps, ReceiptKey(st.h))
    ensures var k := ReceiptKey(st.h); var t := End(c, Next(c, s, st), steps);
      k !in t.w.cache && Copies(t.w.log, k) <= Copies(s.w.log, k) + 1 &&
      (!Carries(s.d, k) ==> Copies(t.w.log, k) == Copies(s.w.log, k))
  {
    var k := ReceiptKey(st.h);
    RowEffect(c, s, st, k);
    CopiesEffect(c, s, st, k);
    NoResurrection(c, Next(c, s, st), steps, k);
    if !Carries(s.d, k) {
      QuietForGood(c, Next(c, s, st), steps, k);
      StepAddsCopies(c, s, st, k);
    }
  }

  lemma {:induction false} RunStaysDistinct(c: Config, s: Sys, steps: seq<Step>)
    requires Runs(c, s, steps) && DistinctKeys(InFlight(s.d))
    ensures DistinctKeys(InFlight(End(c, s, steps).d))
    decreases |steps|
  {
    if steps != [] {
      PassStaysDistinct(c, s, steps[0]);
      RunStaysDistinct(c, Next(c, s, steps[0]), steps[1..]);
    }
  }

  lemma {:induction false} CopiesOnlyGrow(c: Config, s: Sys, steps: seq<Step>, k: Key)
    requires Runs(c, s, steps)
    ensures Copies(s.w.log, k) <= Copies(End(c, s, steps).w.log, k)
    decreases |steps|
  {
    if steps != [] {
      StepAddsCopies(c, s, steps[0], k);
      CopiesOnlyGrow(c, Next(c, s, steps[0]), steps[1..], k);
    }
  }

  lemma {:induction false} PrefixCopies(a: seq<Event>, b: seq<Event>, k: Key)
    ensures Copies(a, k) <= Copies(a + b, k)
    decreases |b|
  {
    if b == [] {
      assert a + b == a;
    } else {
      assert (a + b)[..|a + b| - 1] == a + b[..|b| - 1];
      PrefixCopies(a, b[..|b| - 1], k);
    }
  }

  lemma StepAddsCopies(c: Config, s: Sys, st: Step, k: Key)
    requires Enabled(c, s, st)
    ensures Copies(s.w.log, k) <= Copies(Next(c, s, st).w.log, k)
  {
    var log, log' := s.w.log, Next(c, s, st).w.log;
    NoLoss.LogGrows(c, s, st);
    assert log' == log + log'[|log|..];
    PrefixCopies(log, log'[|log|..], k);
  }
}
