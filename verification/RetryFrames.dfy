/** Over whole runs, every retry on the wire is the frame of an accepted request with its retain
    byte cleared, and every first delivery is that frame itself. */
module RetryFrames {
  import opened Bytes
  import opened Coder
  import opened Server
  import opened Retries

  /** Some accepted request has this key, type and text. */
  ghost predicate Explained(heads: set<Head>, k: Key, kind: byte, text: seq<byte>) {
    exists h :: h in heads && KeyOf(h) == k && h.kind == kind && CString(h.content) == text
  }

  ghost predicate EventExplained(heads: set<Head>, e: Event) {
    match e
    case Deliver(k, frame, _) => exists h :: h in heads && KeyOf(h) == k && frame == EncodeHead(h)
    case Retry(k, frame, _) => exists h :: h in heads && KeyOf(h) == k && frame == EncodeHead(h)[11 := 0]
    case _ => true
  }

  ghost predicate LogExplained(heads: set<Head>, log: seq<Event>) {
    forall i :: 0 <= i < |log| ==> EventExplained(heads, log[i])
  }

  ghost predicate CacheExplained(heads: set<Head>, w: World) {
    forall k :: k in w.cache ==> Explained(heads, k, w.cache[k].kind, w.cache[k].text)
  }

  ghost predicate FlightExplained(heads: set<Head>, d: Daemon) {
    forall i :: 0 <= i < |InFlight(d)| ==>
      Explained(heads, InFlight(d)[i].key, InFlight(d)[i].kind, InFlight(d)[i].text)
  }

  ghost predicate FramesOk(heads: set<Head>, s: Sys) {
    CacheExplained(heads, s.w) && FlightExplained(heads, s.d) && LogExplained(heads, s.w.log)
  }

  function HeadsOf(s: Sys, st: Step): set<Head> {
    if Caches(s, st) then {st.h} else {}
  }

  lemma MoreHeads(heads: set<Head>, more: set<Head>, log: seq<Event>)
    requires LogExplained(heads, log)
    ensures LogExplained(heads + more, log)
  {
    forall i | 0 <= i < |log|
      ensures EventExplained(heads + more, log[i])
    {
      assert EventExplained(heads, log[i]);
    }
  }

  lemma LoggedExplained(heads: set<Head>, w: World, user: U32, make: int -> Event)
    requires LogExplained(heads, w.log) && forall b :: EventExplained(heads, make(b))
    ensures LogExplained(heads, Logged(w, user, make).log)
  {
  }

  lemma RetryExplained(heads: set<Head>, x: Selected, b: int)
    requires Explained(heads, x.key, x.kind, x.text)
    ensures EventExplained(heads, Retry(x.key, EncodeItem(RetryItem(x)), b))
  {
    var h :| h in heads && KeyOf(h) == x.key && h.kind == x.kind && CString(h.content) == x.text;
    RetryFrame(h, RetryItem(x));
  }

  lemma RequestLog(heads: set<Head>, w: World, h: Head, now: int, ok: bool)
    requires LogExplained(heads, w.log)
    requires h.kind == COMPLETE_MESSAGE && Accepts(w, h, ok) ==> h in heads
    ensures LogExplained(heads, AccessToLogic(w, h, now, ok).log)
  {
    if h.kind == SIMPLE_MESSAGE && ok {
      var archived := w.(store := w.store + [StoreRow(h.fromId, h.toId, h.frameId, h.kind, CString(h.content), now, now)]);
      LoggedExplained(heads, archived, h.toId, b => Plain(KeyOf(h), EncodeHead(h), b));
    } else if h.kind == COMPLETE_MESSAGE && Accepts(w, h, ok) {
      var cached := w.(cache := w.cache[KeyOf(h) := Row(h.kind, CString(h.content), now, 0, now + 10)]);
      var acked := Logged(cached, h.fromId, b => Ack(KeyOf(h), b));
      LoggedExplained(heads, cached, h.fromId, b => Ack(KeyOf(h), b));
      LoggedExplained(heads, acked, h.toId, b => Deliver(KeyOf(h), EncodeHead(h), b));
    }
  }

  lemma StepLog(c: Config, s: Sys, st: Step, heads: set<Head>)
    requires Enabled(c, s, st) && FramesOk(heads, s)
    ensures LogExplained(heads + HeadsOf(s, st), Next(c, s, st).w.log)
  {
    MoreHeads(heads, HeadsOf(s, st), s.w.log);
    if st.Request? {
      RequestLog(heads + HeadsOf(s, st), s.w, st.h, st.now, st.ok);
    } else if st.SendNext? {
      var x := s.d.batch[0];
      assert InFlight(s.d)[0] == x;
      forall b: int
        ensures EventExplained(heads, Retry(x.key, EncodeItem(RetryItem(x)), b))
      {
        RetryExplained(heads, x, b);
      }
      LoggedExplained(heads, s.w, x.key.toId, b => Retry(x.key, EncodeItem(RetryItem(x)), b));
      assert heads + HeadsOf(s, st) == heads;
    }
  }

  lemma StepCache(c: Config, s: Sys, st: Step, heads: set<Head>)
    requires Enabled(c, s, st) && CacheExplained(heads, s.w)
    ensures CacheExplained(heads + HeadsOf(s, st), Next(c, s, st).w)
  {
    var t := Next(c, s, st);
    forall k | k in t.w.cache
      ensures Explained(heads + HeadsOf(s, st), k, t.w.cache[k].kind, t.w.cache[k].text)
    {
      RowEffect(c, s, st, k);
      if Caches(s, st) && KeyOf(st.h) == k {
        assert st.h in heads + HeadsOf(s, st);
      } else {
        var h :| h in heads && KeyOf(h) == k && h.kind == s.w.cache[k].kind && CString(h.content) == s.w.cache[k].text;
        assert h in heads + HeadsOf(s, st);
      }
    }
  }

  lemma SelectionExplained(c: Config, w: World, now: int, order: seq<Key>, heads: set<Head>)
    requires DueOrder(c, w, now, order) && CacheExplained(heads, w)
    ensures forall k :: k in order ==> k in w.cache
    ensures FlightExplained(heads, Updating(now, SelectRows(w, order), []))
  {
    SelectedRows(c, w, now, order);
    var f := SelectRows(w, order);
    assert InFlight(Updating(now, f, [])) == f;
    forall i | 0 <= i < |f|
      ensures Explained(heads, f[i].key, f[i].kind, f[i].text)
    {
      assert f[i] == SelectRow(w, order[i]);
    }
  }

  lemma SentExplained(batch: seq<Selected>, heads: set<Head>)
    requires batch != [] && FlightExplained(heads, Sending(batch))
    ensures FlightExplained(heads, Sending(batch[1..]))
  {
    forall i | 0 <= i < |batch| - 1
      ensures Explained(heads, batch[1..][i].key, batch[1..][i].kind, batch[1..][i].text)
    {
      assert batch[1..][i] == InFlight(Sending(batch))[i + 1];
    }
  }

  lemma StepFlight(c: Config, s: Sys, st: Step, heads: set<Head>)
    requires Enabled(c, s, st) && CacheExplained(heads, s.w) && FlightExplained(heads, s.d)
    ensures FlightExplained(heads, Next(c, s, st).d)
  {
    match st
    case UpdateNext =>
      FlightMoves(s.d.todo, s.d.batch);
      assert InFlight(Next(c, s, st).d) == InFlight(s.d);
    case SelectDue(now, order) => SelectionExplained(c, s.w, now, order, heads);
    case StartSends => assert InFlight(Next(c, s, st).d) == InFlight(s.d) by { assert s.d.batch + s.d.todo == s.d.batch; }
    case SendNext => SentExplained(s.d.batch, heads);
    case _ =>
  }

  lemma MoreHeadsInFlight(heads: set<Head>, more: set<Head>, d: Daemon)
    requires FlightExplained(heads, d)
    ensures FlightExplained(heads + more, d)
  {
    forall i | 0 <= i < |InFlight(d)|
      ensures Explained(heads + more, InFlight(d)[i].key, InFlight(d)[i].kind, InFlight(d)[i].text)
    {
      var x := InFlight(d)[i];
      var h :| h in heads && KeyOf(h) == x.key && h.kind == x.kind && CString(h.content) == x.text;
      assert h in heads + more;
    }
  }

  ghost function AcceptedHeads(c: Config, s: Sys, steps: seq<Step>): set<Head>
    requires Runs(c, s, steps)
    decreases |steps|
  {
    if steps == [] then {} else HeadsOf(s, steps[0]) + AcceptedHeads(c, Next(c, s, steps[0]), steps[1..])
  }

  lemma {:induction false} FramesOverRun(c: Config, s: Sys, steps: seq<Step>, heads: set<Head>)
    requires Runs(c, s, steps) && FramesOk(heads, s)
    ensures FramesOk(heads + AcceptedHeads(c, s, steps), End(c, s, steps))
    decreases |steps|
  {
    if steps == [] {
      assert heads + {} == heads;
    } else {
      var st := steps[0];
      StepCache(c, s, st, heads);
      StepFlight(c, s, st, heads);
      MoreHeadsInFlight(heads, HeadsOf(s, st), Next(c, s, st).d);
      StepLog(c, s, st, heads);
      FramesOverRun(c, Next(c, s, st), steps[1..], heads + HeadsOf(s, st));
      assert heads + HeadsOf(s, st) + AcceptedHeads(c, Next(c, s, st), steps[1..]) ==
        heads + AcceptedHeads(c, s, steps);
    }
  }

  lemma LogOverRun(c: Config, s: Sys, steps: seq<Step>, i: nat)
    requires Runs(c, s, steps) && s.w.cache == map[] && s.d.Idle? && s.w.log == []
    requires i < |End(c, s, steps).w.log|
    ensures EventExplained(AcceptedHeads(c, s, steps), End(c, s, steps).w.log[i])
  {
    FramesOverRun(c, s, steps, {});
    assert {} + AcceptedHeads(c, s, steps) == AcceptedHeads(c, s, steps);
  }

  /** From an empty cache, every retry of a run carries the frame of a request accepted in that run
      with the retain byte cleared; the receiver reads all its fields back. */
  lemma RetriesRepeatTheFrame(c: Config, s: Sys, steps: seq<Step>, i: nat) returns (h: Head)
    requires Runs(c, s, steps) && s.w.cache == map[] && s.d.Idle? && s.w.log == []
    requires i < |End(c, s, steps).w.log| && End(c, s, steps).w.log[i].Retry?
    ensures h in AcceptedHeads(c, s, steps)
    ensures var e := End(c, s, steps).w.log[i];
      KeyOf(h) == e.key && e.frame == EncodeHead(h)[11 := 0] &&
      Parse(e.frame) == Item(h.toId, h.fromId, h.frameId, h.kind, 0, CString(h.content))
  {
    LogOverRun(c, s, steps, i);
    var e := End(c, s, steps).w.log[i];
    h :| h in AcceptedHeads(c, s, steps) && KeyOf(h) == e.key && e.frame == EncodeHead(h)[11 := 0];
    var item := Item(h.toId, h.fromId, h.frameId, h.kind, 0, CString(h.content));
    RetryFrame(h, item);
    ItemRoundTrip(item);
  }

  /** Every first delivery carries the frame of an accepted request as it is. */
  lemma DeliveriesCarryTheFrame(c: Config, s: Sys, steps: seq<Step>, i: nat) returns (h: Head)
    requires Runs(c, s, steps) && s.w.cache == map[] && s.d.Idle? && s.w.log == []
    requires i < |End(c, s, steps).w.log| && End(c, s, steps).w.log[i].Deliver?
    ensures h in AcceptedHeads(c, s, steps)
    ensures var e := End(c, s, steps).w.log[i];
      KeyOf(h) == e.key && e.frame == EncodeHead(h) &&
      Parse(e.frame) == Item(h.toId, h.fromId, h.frameId, h.kind, h.retain, CString(h.content))
  {
    LogOverRun(c, s, steps, i);
    var e := End(c, s, steps).w.log[i];
    h :| h in AcceptedHeads(c, s, steps) && KeyOf(h) == e.key && e.frame == EncodeHead(h);
    HeadRoundTrip(h);
  }
}
