/** That messages do go out: each handler and each turn of the daemon sends to a user whenever a
    configured beam covers that user, on the beam that is best there, and otherwise not at all. */
module Delivery {
  import opened Coder
  import opened Server
  import opened Retries
  import opened Passes

  // ----- One send -----

  /** Beam `b` is the one to use for this user: reachable, of greatest whole-number SNR, lowest id. */
  ghost predicate UseBeam(w: World, user: U32, b: int) {
    user in w.cover && Beams.BestSeen(w.cover[user], w.configured, b)
  }

  ghost predicate Covered(w: World, user: U32) {
    user in w.cover && exists b :: Beams.Reachable(w.cover[user], w.configured, b)
  }

  /** There is at most one beam to use. */
  lemma UseBeamIsUnique(w: World, user: U32, a: int, b: int)
    requires UseBeam(w, user, a) && UseBeam(w, user, b)
    ensures a == b
  {
  }

  lemma BeamChosen(w: World, user: U32)
    ensures BeamFor(w, user).Some? <==> Covered(w, user)
    ensures BeamFor(w, user).Some? ==> UseBeam(w, user, BeamFor(w, user).value.beam)
  {
    if user in w.cover {
      Beams.DeliveryChoice(w.cover[user], w.configured);
    }
  }

  /** Exactly one event on the beam to use, or none for a user without coverage. */
  ghost predicate SendsOne(w: World, user: U32, sent: seq<Event>, make: int -> Event) {
    if Covered(w, user) then (exists b :: UseBeam(w, user, b)) && forall b :: UseBeam(w, user, b) ==> sent == [make(b)]
    else sent == []
  }

  lemma LoggedSends(w: World, user: U32, make: int -> Event) returns (sent: seq<Event>)
    ensures Logged(w, user, make) == w.(log := w.log + sent) && SendsOne(w, user, sent, make)
  {
    BeamChosen(w, user);
    var b := BeamFor(w, user);
    sent := if b.Some? then [make(b.value.beam)] else [];
    forall a | UseBeam(w, user, a)
      ensures b.Some? && a == b.value.beam
    {
      assert Covered(w, user);
      UseBeamIsUnique(w, user, a, b.value.beam);
    }
    assert w.log + [] == w.log;
  }

  lemma SameCoverage(v: World, w: World, user: U32, sent: seq<Event>, make: int -> Event)
    requires v.cover == w.cover && v.configured == w.configured && SendsOne(v, user, sent, make)
    ensures SendsOne(w, user, sent, make)
  {
    if Covered(w, user) {
      assert Covered(v, user);
      assert forall b :: UseBeam(v, user, b) <==> UseBeam(w, user, b);
    } else {
      assert !Covered(v, user);
    }
  }

  // ----- The message handlers -----

  /** 0x40: archived, and sent once to a covered addressee; nothing at all if the insert is refused. */
  lemma SimpleSends(w: World, h: Head, now: int, ok: bool) returns (sent: seq<Event>)
    ensures ProcessSimple(w, h, now, ok).log == w.log + sent
    ensures if ok then SendsOne(w, h.toId, sent, b => Plain(KeyOf(h), EncodeHead(h), b)) else sent == []
  {
    sent := [];
    assert w.log + [] == w.log;
    if ok {
      var make := b => Plain(KeyOf(h), EncodeHead(h), b);
      var archived := w.(store := w.store + [StoreRow(h.fromId, h.toId, h.frameId, h.kind, CString(h.content), now, now)]);
      sent := LoggedSends(archived, h.toId, make);
      SameCoverage(archived, w, h.toId, sent, make);
    }
  }

  /** 0x60: an accepted message is acknowledged to a covered sender, then delivered to a covered
      addressee; a message that is not accepted sends nothing. */
  lemma CompleteSends(w: World, h: Head, now: int, ok: bool) returns (acks: seq<Event>, deliveries: seq<Event>)
    ensures ProcessComplete(w, h, now, ok).log == w.log + acks + deliveries
    ensures if Accepts(w, h, ok) then
        SendsOne(w, h.fromId, acks, b => Ack(KeyOf(h), b)) &&
        SendsOne(w, h.toId, deliveries, b => Deliver(KeyOf(h), EncodeHead(h), b))
      else acks == [] && deliveries == []
  {
    acks, deliveries := [], [];
    assert w.log + [] + [] == w.log;
    if Accepts(w, h, ok) {
      var ack := b => Ack(KeyOf(h), b);
      var deliver := b => Deliver(KeyOf(h), EncodeHead(h), b);
      var cached := w.(cache := w.cache[KeyOf(h) := Row(h.kind, CString(h.content), now, 0, now + 10)]);
      acks := LoggedSends(cached, h.fromId, ack);
      SameCoverage(cached, w, h.fromId, acks, ack);
      var acked := cached.(log := cached.log + acks);
      deliveries := LoggedSends(acked, h.toId, deliver);
      SameCoverage(acked, w, h.toId, deliveries, deliver);
    }
  }

  /** A message of the batch goes to a covered addressee once. */
  lemma RetrySends(w: World, x: Selected) returns (sent: seq<Event>)
    ensures SendRetry(w, x) == w.(log := w.log + sent)
    ensures SendsOne(w, x.key.toId, sent, b => Retry(x.key, EncodeItem(RetryItem(x)), b))
  {
    sent := LoggedSends(w, x.key.toId, b => Retry(x.key, EncodeItem(RetryItem(x)), b));
  }

  /** The daemon's send: the message as it was selected, with retain 0, addressee first. */
  lemma SendStepSends(c: Config, s: Sys) returns (sent: seq<Event>)
    requires Enabled(c, s, SendNext)
    ensures var x := s.d.batch[0]; var item := Item(x.key.toId, x.key.fromId, x.key.frameId, x.kind, 0, x.text);
      Next(c, s, SendNext).w.log == s.w.log + sent &&
      SendsOne(s.w, x.key.toId, sent, b => Retry(x.key, EncodeItem(item), b))
  {
    var x := s.d.batch[0];
    var item := Item(x.key.toId, x.key.fromId, x.key.frameId, x.kind, 0, x.text);
    var spelled := b => Retry(x.key, EncodeItem(item), b);
    sent := RetrySends(s.w, x);
    assert RetryItem(x) == item;
    assert forall b: int :: spelled(b) == Retry(x.key, EncodeItem(RetryItem(x)), b);
  }

  // ----- The coverage handlers -----

  /** One answer on the first entry of greatest SNR whose beam is configured; none if no entry of a
      configured beam has an SNR above -1. */
  ghost predicate AnswersReport(configured: set<int>, user: U32, report: seq<Beams.SateParam>, sent: seq<Event>) {
    if exists j :: 0 <= j < |report| && report[j].beam in configured && report[j].snr > -1.0
    then exists i :: FirstGreatest(configured, report, i) && sent == [Reply(user, report[i].beam)]
    else sent == []
  }

  /** Entry `i` is usable, no usable entry exceeds it, and none before it equals it. */
  ghost predicate FirstGreatest(configured: set<int>, report: seq<Beams.SateParam>, i: int) {
    && 0 <= i < |report| && report[i].beam in configured && report[i].snr > -1.0
    && (forall j :: 0 <= j < |report| && report[j].beam in configured ==> report[j].snr <= report[i].snr)
    && (forall j :: 0 <= j < i && report[j].beam in configured ==> report[j].snr < report[i].snr)
  }

  lemma ReportAnswered(w: World, user: U32, report: seq<Beams.SateParam>) returns (sent: seq<Event>)
    ensures Answered(w, user, report).log == w.log + sent && AnswersReport(w.configured, user, report, sent)
  {
    var i := Beams.ChooseIsFirstBest(report, w.configured);
    var b := Beams.Choose(report, w.configured);
    sent := if b.Some? then [Reply(user, b.value.beam)] else [];
    assert w.log + [] == w.log;
    if b.Some? {
      forall j | 0 <= j < |report| && report[j].beam in w.configured
        ensures report[j].snr <= report[i].snr && (j < i ==> report[j].snr < report[i].snr)
      {
        if report[j].snr > -1.0 {
          assert Beams.Usable(report[j], w.configured);
        }
      }
      assert FirstGreatest(w.configured, report, i);
    } else {
      assert forall j :: 0 <= j < |report| ==> !Beams.Usable(report[j], w.configured);
    }
  }

  /** A login is answered over the beams of its own report, whether or not the user is known; an empty
      report is not. */
  lemma LoginSends(c: Config, s: Sys, user: U32, report: seq<Beams.SateParam>) returns (sent: seq<Event>)
    requires Enabled(c, s, Login(user, report))
    ensures Next(c, s, Login(user, report)).w.log == s.w.log + sent
    ensures AnswersReport(s.w.configured, user, report, sent)
  {
    sent := [];
    assert s.w.log + [] == s.w.log;
    if report != [] {
      var stored := if user in s.w.users then StoreCover(s.w, user, Beams.CoverOf(report)) else s.w;
      sent := ReportAnswered(stored, user, report);
    }
  }

  /** A coverage report likewise. */
  lemma MobileSends(c: Config, s: Sys, user: U32, report: seq<Beams.SateParam>) returns (sent: seq<Event>)
    requires Enabled(c, s, Mobile(user, report))
    ensures Next(c, s, Mobile(user, report)).w.log == s.w.log + sent
    ensures AnswersReport(s.w.configured, user, report, sent)
  {
    sent := [];
    assert s.w.log + [] == s.w.log;
    if report != [] {
      sent := ReportAnswered(StoreCover(s.w, user, Beams.CoverOf(report)), user, report);
    }
  }

  /** A logout is answered once on the beam to use in the coverage from before it, and not at all
      without such coverage. */
  lemma LogoutSends(c: Config, s: Sys, user: U32) returns (sent: seq<Event>)
    ensures Next(c, s, Logout(user)).w.log == s.w.log + sent
    ensures SendsOne(s.w, user, sent, b => Reply(user, b))
  {
    sent := LoggedSends(s.w, user, b => Reply(user, b));
    assert Beams.Choose(SatesOf(s.w, user), s.w.configured) == BeamFor(s.w, user);
  }

  // ----- A whole undisturbed pass -----

  ghost predicate HasKey(xs: seq<Selected>, k: Key) {
    exists i :: 0 <= i < |xs| && xs[i].key == k
  }

  lemma HasKeyLast(xs: seq<Selected>, k: Key)
    requires xs != []
    ensures HasKey(xs, k) <==> HasKey(xs[..|xs| - 1], k) || xs[|xs| - 1].key == k
  {
    var n := |xs| - 1;
    if HasKey(xs, k) && xs[n].key != k {
      var i :| 0 <= i < |xs| && xs[i].key == k;
      assert xs[..n][i].key == k;
    }
    if HasKey(xs[..n], k) {
      var i :| 0 <= i < n && xs[..n][i].key == k;
      assert xs[i].key == k;
    }
  }

  lemma RetryAddsCopy(w: World, x: Selected, k: Key)
    ensures Copies(SendRetry(w, x).log, k) ==
      Copies(w.log, k) + (if x.key == k && Covered(w, k.toId) then 1 else 0)
  {
    BeamChosen(w, x.key.toId);
    var b := BeamFor(w, x.key.toId);
    if b.Some? {
      CopiesAppend(w.log, Retry(x.key, EncodeItem(RetryItem(x)), b.value.beam), k);
    }
  }

  /** Sending a batch of distinct keys adds one copy of each covered message in it, and touches
      nothing but the log. */
  lemma {:induction false} BatchCopies(w: World, xs: seq<Selected>, k: Key)
    requires DistinctKeys(xs)
    ensures SendAll(w, xs) == w.(log := SendAll(w, xs).log)
    ensures Copies(SendAll(w, xs).log, k) ==
      Copies(w.log, k) + (if HasKey(xs, k) && Covered(w, k.toId) then 1 else 0)
    decreases |xs|
  {
    if xs != [] {
      var n := |xs| - 1;
      var before := SendAll(w, xs[..n]);
      BatchCopies(w, xs[..n], k);
      RetryAddsCopy(before, xs[n], k);
      HasKeyLast(xs, k);
      assert Covered(before, k.toId) <==> Covered(w, k.toId);
      assert SendRetry(before, xs[n]) == before.(log := SendRetry(before, xs[n]).log);
      if HasKey(xs[..n], k) {
        var i :| 0 <= i < n && xs[..n][i].key == k;
        assert xs[i].key != xs[n].key;
      }
    }
  }

  /** Updating the rows of distinct keys raises exactly those that are listed and cached. */
  lemma {:induction false} BatchRow(c: Config, w: World, now: int, xs: seq<Selected>, k: Key, i: nat)
    requires DistinctKeys(xs) && k in w.cache
    requires i < |xs| && xs[i].key == k
    ensures var t := UpdateAll(c, w, now, xs);
      k in t.cache && t.cache[k] == Updated(c, w.cache[k], now, xs[i].retryNum)
    decreases |xs|
  {
    var n := |xs| - 1;
    UpdateAllKeepsTexts(c, w, now, xs[..n]);
    if i < n {
      assert xs[i].key != xs[n].key;
      BatchRow(c, w, now, xs[..n], k, i);
    } else {
      assert forall j :: 0 <= j < n ==> xs[j].key != xs[n].key;
      BatchOtherRow(c, w, now, xs[..n], k);
    }
  }

  lemma {:induction false} BatchOtherRow(c: Config, w: World, now: int, xs: seq<Selected>, k: Key)
    requires k in w.cache && forall j :: 0 <= j < |xs| ==> xs[j].key != k
    ensures var t := UpdateAll(c, w, now, xs); k in t.cache && t.cache[k] == w.cache[k]
    decreases |xs|
  {
    if xs != [] {
      BatchOtherRow(c, w, now, xs[..|xs| - 1], k);
    }
  }

  /** An undisturbed pass sends every due message once to a covered addressee and raises its row,
      and leaves every other message alone. */
  lemma PassRetriesExactlyTheDue(c: Config, w: World, now: int, order: seq<Key>, k: Key)
    requires DueOrder(c, w, now, order) && k in w.cache
    ensures forall j :: j in order ==> j in w.cache
    ensures var t := PassResult(c, w, now, order);
      k in t.cache && t.store == w.store && t.cover == w.cover &&
      t.cache[k] == (if Due(c, w, now, k) then Updated(c, w.cache[k], now, w.cache[k].retryNum) else w.cache[k]) &&
      Copies(t.log, k) == Copies(w.log, k) + (if Due(c, w, now, k) && Covered(w, k.toId) then 1 else 0)
  {
    SelectedRows(c, w, now, order);
    var rows := SelectRows(w, order);
    assert DistinctKeys(rows);
    var updated := UpdateAll(c, w, now, rows);
    UpdateAllOnlyCache(c, w, now, rows);
    BatchCopies(updated, rows, k);
    assert Covered(updated, k.toId) <==> Covered(w, k.toId);
    if Due(c, w, now, k) {
      var i :| 0 <= i < |order| && order[i] == k;
      assert rows[i].key == k && rows[i] == SelectRow(w, k);
      BatchRow(c, w, now, rows, k, i);
      assert HasKey(rows, k);
    } else {
      assert forall j :: 0 <= j < |order| ==> order[j] in order;
      BatchOtherRow(c, w, now, rows, k);
      assert !HasKey(rows, k);
    }
  }
}
