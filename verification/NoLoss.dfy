/** No message is lost: over every run, what was cached before or accepted since is cached,
    archived, or was dropped by a refused archive insert, with multiplicity. */
module NoLoss {
  import opened Bytes
  import opened Coder
  import opened Server

  /** What identifies a message in either table. */
  datatype Msg = Msg(fromId: U32, toId: U32, frameId: U16, text: seq<byte>, recvTime: int)

  function CachedMsg(k: Key, row: Row): Msg {
    Msg(k.fromId, k.toId, k.frameId, row.text, row.recvTime)
  }

  /** Reads an archived 0x60 row through the swap of its two user columns. */
  function ArchivedMsg(row: StoreRow): Msg {
    Msg(row.toUser, row.fromUser, row.frameId, row.text, row.recvTime)
  }

  ghost function Cached(m: map<Key, Row>): multiset<Msg>
    decreases m.Keys
  {
    if m.Keys == {} then multiset{}
    else
      var k :| k in m.Keys;
      RemoveShrinks(m, k);
      Cached(m - {k}) + multiset{CachedMsg(k, m[k])}
  }

  lemma RemoveShrinks(m: map<Key, Row>, k: Key)
    requires k in m
    ensures (m - {k}).Keys < m.Keys
  {
    assert k !in (m - {k}).Keys;
  }

  function Archived(store: seq<StoreRow>): multiset<Msg>
    decreases |store|
  {
    if store == [] then multiset{}
    else
      var row := store[|store| - 1];
      Archived(store[..|store| - 1]) + (if row.kind == COMPLETE_MESSAGE then multiset{ArchivedMsg(row)} else multiset{})
  }

  lemma RemoveBoth(m: map<Key, Row>, j: Key, k: Key)
    ensures m - {j} - {k} == m - {k} - {j}
  {
  }

  /** Any row can be the one that is counted last. */
  lemma {:induction false} CachedTakes(m: map<Key, Row>, k: Key)
    requires k in m
    ensures Cached(m) == Cached(m - {k}) + multiset{CachedMsg(k, m[k])}
    decreases m.Keys
  {
    var j :| j in m.Keys && Cached(m) == Cached(m - {j}) + multiset{CachedMsg(j, m[j])};
    if j != k {
      RemoveShrinks(m, j);
      CachedTakes(m - {j}, k);
      RemoveShrinks(m, k);
      CachedTakes(m - {k}, j);
      RemoveBoth(m, j, k);
    }
  }

  lemma CachedInserts(m: map<Key, Row>, k: Key, row: Row)
    requires k !in m
    ensures Cached(m[k := row]) == Cached(m) + multiset{CachedMsg(k, row)}
  {
    CachedTakes(m[k := row], k);
    assert m[k := row] - {k} == m;
  }

  /** Rewriting the retry columns of a row does not change its message. */
  lemma CachedUpdates(m: map<Key, Row>, k: Key, row: Row)
    requires k in m && CachedMsg(k, row) == CachedMsg(k, m[k])
    ensures Cached(m[k := row]) == Cached(m)
  {
    var m' := m[k := row];
    assert m' - {k} == m - {k};
    CachedTakes(m, k);
    CachedTakes(m', k);
  }

  lemma ArchivedAppends(store: seq<StoreRow>, row: StoreRow)
    ensures Archived(store + [row]) ==
      Archived(store) + (if row.kind == COMPLETE_MESSAGE then multiset{ArchivedMsg(row)} else multiset{})
  {
    assert (store + [row])[..|store|] == store;
  }

  // ----- Steps -----

  ghost predicate OnlyComplete(w: World) {
    forall k :: k in w.cache ==> w.cache[k].kind == COMPLETE_MESSAGE
  }

  /** The message a step accepts into the cache. */
  function AcceptedBy(s: Sys, st: Step): multiset<Msg> {
    if Caches(s, st) then multiset{Msg(st.h.fromId, st.h.toId, st.h.frameId, CString(st.h.content), st.now)}
    else multiset{}
  }

  /** The message a step deletes from the cache without archiving it. */
  function DroppedBy(s: Sys, st: Step): multiset<Msg> {
    if Settles(s, st) && !st.ok then multiset{CachedMsg(ReceiptKey(st.h), s.w.cache[ReceiptKey(st.h)])}
    else multiset{}
  }

  ghost function Held(w: World): multiset<Msg> {
    Cached(w.cache) + Archived(w.store)
  }

  lemma UpdateConserves(c: Config, w: World, now: int, x: Selected)
    requires OnlyComplete(w)
    ensures OnlyComplete(UpdateRow(c, w, now, x)) && Held(UpdateRow(c, w, now, x)) == Held(w)
  {
    if x.key in w.cache {
      CachedUpdates(w.cache, x.key, UpdateRow(c, w, now, x).cache[x.key]);
    }
  }

  lemma SimpleConserves(w: World, h: Head, now: int, ok: bool)
    requires OnlyComplete(w) && h.kind == SIMPLE_MESSAGE
    ensures OnlyComplete(ProcessSimple(w, h, now, ok)) && Held(ProcessSimple(w, h, now, ok)) == Held(w)
  {
    SimpleTables(w, h, now, ok);
    ArchivedAppends(w.store, StoreRow(h.fromId, h.toId, h.frameId, h.kind, CString(h.content), now, now));
  }

  lemma CompleteConserves(w: World, h: Head, now: int, ok: bool)
    requires OnlyComplete(w) && h.kind == COMPLETE_MESSAGE
    ensures OnlyComplete(ProcessComplete(w, h, now, ok))
    ensures Held(ProcessComplete(w, h, now, ok)) == Held(w) +
      (if Accepts(w, h, ok) then multiset{Msg(h.fromId, h.toId, h.frameId, CString(h.content), now)} else multiset{})
  {
    CompleteTables(w, h, now, ok);
    if Accepts(w, h, ok) {
      CachedInserts(w.cache, KeyOf(h), Row(h.kind, CString(h.content), now, 0, now + 10));
    }
  }

  lemma ReceiptConserves(w: World, h: Head, now: int, ok: bool)
    requires OnlyComplete(w)
    ensures OnlyComplete(ProcessReceipt(w, h, now, ok))
    ensures Held(w) == Held(ProcessReceipt(w, h, now, ok)) +
      (if Matches(w, h) && !ok then multiset{CachedMsg(ReceiptKey(h), w.cache[ReceiptKey(h)])} else multiset{})
  {
    if Matches(w, h) {
      var k := ReceiptKey(h);
      CachedTakes(w.cache, k);
      ArchivedAppends(w.store, ArchiveRow(k, w.cache[k], now));
      assert ArchivedMsg(ArchiveRow(k, w.cache[k], now)) == CachedMsg(k, w.cache[k]);
    }
  }

  lemma StepConserves(c: Config, s: Sys, st: Step)
    requires Enabled(c, s, st) && OnlyComplete(s.w)
    ensures OnlyComplete(Next(c, s, st).w)
    ensures Held(s.w) + AcceptedBy(s, st) == Held(Next(c, s, st).w) + DroppedBy(s, st)
  {
    if st.Request? {
      if st.h.kind == SIMPLE_MESSAGE {
        SimpleConserves(s.w, st.h, st.now, st.ok);
      } else if st.h.kind == COMPLETE_MESSAGE {
        CompleteConserves(s.w, st.h, st.now, st.ok);
      } else if st.h.kind == RECEIPT {
        ReceiptConserves(s.w, st.h, st.now, st.ok);
      }
    } else {
      OtherTables(c, s, st);
      if st.UpdateNext? {
        UpdateConserves(c, s.w, s.d.now, s.d.todo[0]);
      }
    }
  }

  // ----- Runs -----

  ghost function Accepted(c: Config, s: Sys, steps: seq<Step>): multiset<Msg>
    requires Runs(c, s, steps)
    decreases |steps|
  {
    if steps == [] then multiset{}
    else AcceptedBy(s, steps[0]) + Accepted(c, Next(c, s, steps[0]), steps[1..])
  }

  ghost function Dropped(c: Config, s: Sys, steps: seq<Step>): multiset<Msg>
    requires Runs(c, s, steps)
    decreases |steps|
  {
    if steps == [] then multiset{}
    else DroppedBy(s, steps[0]) + Dropped(c, Next(c, s, steps[0]), steps[1..])
  }

  /** Conservation over every run, however handlers and daemon interleave. */
  lemma {:induction false} RunConserves(c: Config, s: Sys, steps: seq<Step>)
    requires Runs(c, s, steps) && OnlyComplete(s.w)
    ensures OnlyComplete(End(c, s, steps).w)
    ensures Held(s.w) + Accepted(c, s, steps) == Held(End(c, s, steps).w) + Dropped(c, s, steps)
    decreases |steps|
  {
    if steps != [] {
      var t := Next(c, s, steps[0]);
      StepConserves(c, s, steps[0]);
      RunConserves(c, t, steps[1..]);
      Chain(Held(s.w), AcceptedBy(s, steps[0]), Accepted(c, t, steps[1..]), Held(t.w),
        DroppedBy(s, steps[0]), Held(End(c, t, steps[1..]).w), Dropped(c, t, steps[1..]));
    }
  }

  lemma Chain(h: multiset<Msg>, a: multiset<Msg>, a': multiset<Msg>, h': multiset<Msg>, d: multiset<Msg>,
      h'': multiset<Msg>, d': multiset<Msg>)
    requires h + a == h' + d && h' + a' == h'' + d'
    ensures h + (a + a') == h'' + (d + d')
  {
    assert h + (a + a') == (h + a) + a' == (h' + a') + d;
  }

  /** A matching receipt whose archive insert is refused. */
  ghost predicate LosesOne(c: Config, s: Sys, steps: seq<Step>)
    requires Runs(c, s, steps)
    decreases |steps|
  {
    steps != [] && ((Settles(s, steps[0]) && !steps[0].ok) || LosesOne(c, Next(c, s, steps[0]), steps[1..]))
  }

  lemma {:induction false} DroppedIff(c: Config, s: Sys, steps: seq<Step>)
    requires Runs(c, s, steps)
    ensures Dropped(c, s, steps) != multiset{} <==> LosesOne(c, s, steps)
    decreases |steps|
  {
    if steps != [] {
      DroppedIff(c, Next(c, s, steps[0]), steps[1..]);
      var here, later := DroppedBy(s, steps[0]), Dropped(c, Next(c, s, steps[0]), steps[1..]);
      assert |here + later| == |here| + |later|;
    }
  }

  /** Every message held or accepted is still held, cached or archived once, exactly when no
      matching receipt met a refused archive insert. */
  lemma NothingLostIff(c: Config, s: Sys, steps: seq<Step>)
    requires Runs(c, s, steps) && OnlyComplete(s.w)
    ensures Held(s.w) + Accepted(c, s, steps) == Held(End(c, s, steps).w) <==> !LosesOne(c, s, steps)
  {
    RunConserves(c, s, steps);
    DroppedIff(c, s, steps);
    var held, dropped := Held(End(c, s, steps).w), Dropped(c, s, steps);
    assert |held + dropped| == |held| + |dropped|;
  }

  // ----- It happens -----

  /** Frame 3 of user 1 to user 2. */
  function Message(): Head {
    Head(1, 2, 3, COMPLETE_MESSAGE, 0, [7])
  }

  /** User 2's receipt for it. */
  function Receipt(): Head {
    Head(2, 1, 9, RECEIPT, 0, [0, 3, COMPLETE_MESSAGE])
  }

  function Start(): Sys {
    Sys(World(map[], [], map[], {}, {}, []), Idle)
  }

  lemma MessageCached()
    ensures AccessToLogic(Start().w, Message(), 0, true) ==
      Start().w.(cache := map[KeyOf(Message()) := Row(COMPLETE_MESSAGE, [7], 0, 0, 10)])
  {
    CStringIsStable([7]);
  }

  lemma MessageAcknowledged(w: World)
    requires w.cache == map[KeyOf(Message()) := Row(COMPLETE_MESSAGE, [7], 0, 0, 10)]
    ensures ReceiptKey(Receipt()) == KeyOf(Message()) && Matches(w, Receipt())
    ensures forall now, ok :: AccessToLogic(w, Receipt(), now, ok).cache == map[]
  {
  }

  /** A message is accepted and acknowledged, its receipt's archive insert is refused, and it is in
      neither table. */
  lemma LossHappens(c: Config) returns (steps: seq<Step>)
    ensures Runs(c, Start(), steps) && LosesOne(c, Start(), steps)
    ensures Accepted(c, Start(), steps) == multiset{Msg(1, 2, 3, [7], 0)} && Held(End(c, Start(), steps).w) == multiset{}
  {
    var cache, settle := Request(Message(), 0, true), Request(Receipt(), 5, false);
    MessageCached();
    var s1 := Next(c, Start(), cache);
    MessageAcknowledged(s1.w);
    var s2 := Next(c, s1, settle);
    RunCons(c, s1, settle, []);
    RunCons(c, Start(), cache, [settle] + []);
    steps := [cache] + ([settle] + []);
    assert steps[1..] == [settle] && [settle][1..] == [];
    assert Accepted(c, s2, []) == multiset{};
    assert Accepted(c, s1, [settle]) == multiset{};
  }

  // ----- What moves a message -----

  /** A row leaves the cache only on a 0x60 receipt from its addressee that names its sender and
      frame; then it is archived at once, unless the insert is refused. */
  lemma OnlyReceiptsMove(c: Config, s: Sys, st: Step, k: Key)
    requires Enabled(c, s, st) && OnlyComplete(s.w) && k in s.w.cache
    ensures k !in Next(c, s, st).w.cache <==> st.Request? && NamesRow(st.h, k)
    ensures k in Next(c, s, st).w.cache ==> CachedMsg(k, Next(c, s, st).w.cache[k]) == CachedMsg(k, s.w.cache[k])
    ensures k !in Next(c, s, st).w.cache ==> Next(c, s, st).w.cache == s.w.cache - {k}
    ensures k !in Next(c, s, st).w.cache ==>
      Next(c, s, st).w.store == if st.ok
        then s.w.store + [StoreRow(k.toId, k.fromId, k.frameId, 0x60, s.w.cache[k].text, s.w.cache[k].recvTime, st.now)]
        else s.w.store
  {
    if st.Request? {
      SimpleTables(s.w, st.h, st.now, st.ok);
      CompleteTables(s.w, st.h, st.now, st.ok);
    } else {
      OtherTables(c, s, st);
    }
  }

  /** A receipt of type 0x60 whose sender is the row's addressee and which names its sender and frame. */
  predicate NamesRow(h: Head, k: Key) {
    h.kind == 0x80 && h.fromId == k.toId && h.toId == k.fromId && ByteAt(h.content, 2) == 0x60 &&
    Host16([ByteAt(h.content, 0), ByteAt(h.content, 1)]) == k.frameId
  }

  /** A receipt that matches no cached row, such as one that comes a second time, changes nothing. */
  lemma ReceiptsAreIdempotent(w: World, h: Head, now: int, ok: bool, later: int, again: bool)
    requires h.kind == RECEIPT
    ensures var once := AccessToLogic(w, h, now, ok);
      AccessToLogic(once, h, later, again) == once && (!Matches(w, h) ==> once == w)
  {
  }

  // ----- Acknowledgements -----

  /** The log grew, and every acknowledgement among the new events is for one of these keys. */
  ghost predicate Extends(log: seq<Event>, log': seq<Event>, acked: set<Key>) {
    log <= log' && forall i :: |log| <= i < |log'| && log'[i].Ack? ==> log'[i].key in acked
  }

  lemma LoggedExtends(w: World, user: U32, make: int -> Event, acked: set<Key>)
    requires forall b :: make(b).Ack? ==> make(b).key in acked
    ensures Extends(w.log, Logged(w, user, make).log, acked)
  {
  }

  lemma ExtendsTwice(a: seq<Event>, b: seq<Event>, c: seq<Event>, acked: set<Key>)
    requires Extends(a, b, acked) && Extends(b, c, acked)
    ensures Extends(a, c, acked)
  {
    forall i | |a| <= i < |c| && c[i].Ack?
      ensures c[i].key in acked
    {
      if i < |b| {
        assert c[i] == b[i];
      }
    }
  }

  lemma RequestExtends(w: World, h: Head, now: int, ok: bool)
    ensures Extends(w.log, AccessToLogic(w, h, now, ok).log,
      if h.kind == COMPLETE_MESSAGE && Accepts(w, h, ok) then {KeyOf(h)} else {})
  {
    if h.kind == SIMPLE_MESSAGE && ok {
      var archived := w.(store := w.store + [StoreRow(h.fromId, h.toId, h.frameId, h.kind, CString(h.content), now, now)]);
      LoggedExtends(archived, h.toId, b => Plain(KeyOf(h), EncodeHead(h), b), {});
    } else if h.kind == COMPLETE_MESSAGE && Accepts(w, h, ok) {
      var cached := w.(cache := w.cache[KeyOf(h) := Row(h.kind, CString(h.content), now, 0, now + 10)]);
      var acked := Logged(cached, h.fromId, b => Ack(KeyOf(h), b));
      LoggedExtends(cached, h.fromId, b => Ack(KeyOf(h), b), {KeyOf(h)});
      LoggedExtends(acked, h.toId, b => Deliver(KeyOf(h), EncodeHead(h), b), {KeyOf(h)});
      ExtendsTwice(cached.log, acked.log, ProcessComplete(w, h, now, ok).log, {KeyOf(h)});
    }
  }

  /** A step only appends to the log, and every acknowledgement it appends is for the message that
      very step put into the cache. */
  lemma StepExtends(c: Config, s: Sys, st: Step)
    requires Enabled(c, s, st)
    ensures Extends(s.w.log, Next(c, s, st).w.log, if Caches(s, st) then {KeyOf(st.h)} else {})
  {
    if st.Request? {
      RequestExtends(s.w, st.h, st.now, st.ok);
    }
  }

  lemma AcksOnlyAccepted(c: Config, s: Sys, st: Step, i: nat)
    requires Enabled(c, s, st)
    requires |s.w.log| <= i < |Next(c, s, st).w.log| && Next(c, s, st).w.log[i].Ack?
    ensures Caches(s, st) && Next(c, s, st).w.log[i].key == KeyOf(st.h)
  {
    StepExtends(c, s, st);
  }

  lemma LogGrows(c: Config, s: Sys, st: Step)
    requires Enabled(c, s, st)
    ensures s.w.log <= Next(c, s, st).w.log
  {
    StepExtends(c, s, st);
  }

  /** The step at position `i` of the run, and the state it is taken in. */
  ghost function Before(c: Config, s: Sys, steps: seq<Step>, i: nat): Sys
    requires Runs(c, s, steps) && i <= |steps|
    decreases |steps|
  {
    if i == 0 then s else Before(c, Next(c, s, steps[0]), steps[1..], i - 1)
  }

  lemma {:induction false} LogGrowsOverRun(c: Config, s: Sys, steps: seq<Step>)
    requires Runs(c, s, steps)
    ensures s.w.log <= End(c, s, steps).w.log
    decreases |steps|
  {
    if steps != [] {
      LogGrows(c, s, steps[0]);
      LogGrowsOverRun(c, Next(c, s, steps[0]), steps[1..]);
    }
  }

  /** Every acknowledgement of a run was sent by a step that put the named message into the cache. */
  lemma {:induction false} AckedWasCached(c: Config, s: Sys, steps: seq<Step>, i: nat) returns (j: nat)
    requires Runs(c, s, steps)
    requires |s.w.log| <= i < |End(c, s, steps).w.log| && End(c, s, steps).w.log[i].Ack?
    ensures j < |steps| && Caches(Before(c, s, steps, j), steps[j])
    ensures KeyOf(steps[j].h) == End(c, s, steps).w.log[i].key
    decreases |steps|
  {
    var t := Next(c, s, steps[0]);
    if i < |t.w.log| {
      LogGrowsOverRun(c, t, steps[1..]);
      AcksOnlyAccepted(c, s, steps[0], i);
      j := 0;
    } else {
      var j' := AckedWasCached(c, t, steps[1..], i);
      j := j' + 1;
    }
  }
}
