/** What every step of the system does, spelled out field by field and in numbers: the tables, and
    what the daemon carries. The sends are in Delivery. */
module Effects {
  import opened Coder
  import opened Server

  // ----- Messages -----

  /** 0x60: taken exactly if the database takes it and its own key is free; the row then starts with
      count 0 and its first retry ten seconds on. Otherwise nothing happens at all. */
  lemma CompleteEffect(c: Config, s: Sys, h: Head, now: int, ok: bool)
    requires h.kind == 0x60
    ensures var k := Key(h.fromId, h.toId, h.frameId); var t := Next(c, s, Request(h, now, ok));
      if ok && k !in s.w.cache then
        k in t.w.cache && t.w.cache[k].kind == 0x60 && t.w.cache[k].text == CString(h.content) &&
        t.w.cache[k].recvTime == now && t.w.cache[k].retryNum == 0 && t.w.cache[k].retryTime == now + 10 &&
        t.w.cache - {k} == s.w.cache && t.w.store == s.w.store && t.w.cover == s.w.cover && t.d == s.d
      else t == s
  {
    CompleteTables(s.w, h, now, ok);
  }

  /** 0x40: archived exactly if the database takes it, in the order sender, addressee, received and
      sent now; never cached. */
  lemma SimpleEffect(c: Config, s: Sys, h: Head, now: int, ok: bool)
    requires h.kind == 0x40
    ensures var t := Next(c, s, Request(h, now, ok));
      if ok then
        t.w.store == s.w.store + [StoreRow(h.fromId, h.toId, h.frameId, 0x40, CString(h.content), now, now)] &&
        t.w.cache == s.w.cache && t.w.cover == s.w.cover && t.d == s.d
      else t == s
  {
    SimpleTables(s.w, h, now, ok);
  }

  /** The row a receipt names: the user that is acknowledged, the one that acknowledges, and the
      frame number in the first two bytes of the content, most significant byte first. */
  function Named(h: Head): Key
    requires |h.content| >= 3
  {
    Key(h.toId, h.fromId, 256 * h.content[0] as int + h.content[1] as int)
  }

  /** 0x80: the third byte says 0x60 and the named row is cached as 0x60, or nothing happens. Then the
      row leaves the cache, and is archived, if the database takes it, with its two users exchanged,
      its own text and receive time, and sent now. */
  lemma ReceiptEffect(c: Config, s: Sys, h: Head, now: int, ok: bool)
    requires h.kind == 0x80 && |h.content| >= 3
    ensures var k := Named(h); var t := Next(c, s, Request(h, now, ok));
      if h.content[2] == 0x60 && k in s.w.cache && s.w.cache[k].kind == 0x60 then
        var archived := StoreRow(h.fromId, h.toId, k.frameId, 0x60, s.w.cache[k].text, s.w.cache[k].recvTime, now);
        t.w.cache == s.w.cache - {k} && t.w.store == (if ok then s.w.store + [archived] else s.w.store) &&
        t.w.cover == s.w.cover && t.w.log == s.w.log && t.d == s.d
      else t == s
  {
    assert ReceiptKey(h) == Named(h);
  }

  /** Content beyond its end reads as 0, so a shorter receipt does nothing; nor does any type
      but these and those of the coverage handlers. */
  lemma OtherRequests(c: Config, s: Sys, h: Head, now: int, ok: bool)
    requires (h.kind == 0x80 && |h.content| < 3) || h.kind !in {0x00, 0x02, 0x03, 0x40, 0x60, 0x80}
    ensures Next(c, s, Request(h, now, ok)) == s
  {
  }

  // ----- Coverage -----

  /** A report may be processed exactly if its beams are 1 to 10; a login of an unknown user and an
      empty report never reach that assertion. */
  lemma ReportsEnabled(c: Config, s: Sys, user: U32, report: seq<Beams.SateParam>)
    ensures Enabled(c, s, Mobile(user, report)) <==> forall i :: 0 <= i < |report| ==> 1 <= report[i].beam <= 10
    ensures Enabled(c, s, Login(user, report)) <==>
      (user in s.w.users ==> forall i :: 0 <= i < |report| ==> 1 <= report[i].beam <= 10)
  {
  }

  /** Only the coverage and the log change. */
  predicate SameButCover(v: World, w: World) {
    v.cache == w.cache && v.store == w.store && v.users == w.users && v.configured == w.configured
  }

  lemma AnsweredTables(w: World, user: U32, sates: seq<Beams.SateParam>)
    ensures SameButCover(w, Answered(w, user, sates)) && Answered(w, user, sates).cover == w.cover
  {
  }

  /** Login: a non-empty report replaces the row of a known user, if there is one. */
  lemma LoginEffect(c: Config, s: Sys, user: U32, report: seq<Beams.SateParam>)
    requires Enabled(c, s, Login(user, report))
    ensures var t := Next(c, s, Login(user, report));
      t.d == s.d && SameButCover(s.w, t.w) &&
      t.w.cover == if report != [] && user in s.w.users && user in s.w.cover
        then s.w.cover[user := Beams.CoverOf(report)] else s.w.cover
  {
    if report != [] {
      AnsweredTables(if user in s.w.users then StoreCover(s.w, user, Beams.CoverOf(report)) else s.w, user, report);
    }
  }

  /** Coverage report: the same, known user or not. */
  lemma MobileEffect(c: Config, s: Sys, user: U32, report: seq<Beams.SateParam>)
    requires Enabled(c, s, Mobile(user, report))
    ensures var t := Next(c, s, Mobile(user, report));
      t.d == s.d && SameButCover(s.w, t.w) &&
      t.w.cover == if report != [] && user in s.w.cover then s.w.cover[user := Beams.CoverOf(report)] else s.w.cover
  {
    if report != [] {
      AnsweredTables(StoreCover(s.w, user, Beams.CoverOf(report)), user, report);
    }
  }

  /** Logout: all ten SNRs of the row become -1; other rows stay. */
  lemma LogoutEffect(c: Config, s: Sys, user: U32)
    ensures var t := Next(c, s, Logout(user));
      t.d == s.d && SameButCover(s.w, t.w) &&
      t.w.cover.Keys == s.w.cover.Keys && t.w.cover - {user} == s.w.cover - {user} &&
      (user in s.w.cover ==> forall i :: 0 <= i < 10 ==> t.w.cover[user][i] == -1.0)
  {
    AnsweredTables(StoreCover(s.w, user, Beams.NoCover()), user, SatesOf(s.w, user));
  }

  // ----- The daemon -----

  /** The select takes every row with retries left whose time has come, each once, as it stands; the
      tables stay. */
  lemma SelectEffect(c: Config, s: Sys, now: int, order: seq<Key>)
    requires Enabled(c, s, SelectDue(now, order))
    ensures forall k :: k in order <==>
      k in s.w.cache && s.w.cache[k].retryNum < c.maxRetry && s.w.cache[k].retryTime <= now
    ensures forall i, j :: 0 <= i < j < |order| ==> order[i] != order[j]
    ensures var t := Next(c, s, SelectDue(now, order));
      t.w == s.w && t.d.Updating? && t.d.now == now && t.d.batch == [] && |t.d.todo| == |order|
    ensures var todo := Next(c, s, SelectDue(now, order)).d.todo;
      forall i :: 0 <= i < |order| ==>
        order[i] in s.w.cache &&
        todo[i] == Selected(order[i], s.w.cache[order[i]].kind, s.w.cache[order[i]].text, s.w.cache[order[i]].retryNum)
  {
    assert forall k :: k in order <==> Due(c, s.w, now, k);
    assert forall i :: 0 <= i < |order| ==> order[i] in order;
  }

  /** The update of the first selected row: one more than the count it was selected with, and due that
      many intervals after the select, if it is still cached; nothing else changes. */
  lemma UpdateEffect(c: Config, s: Sys)
    requires Enabled(c, s, UpdateNext)
    ensures var x := s.d.todo[0]; var t := Next(c, s, UpdateNext);
      t.w == s.w.(cache := t.w.cache) && t.d == Updating(s.d.now, s.d.todo[1..], s.d.batch + [x]) &&
      (x.key !in s.w.cache ==> t.w == s.w) &&
      (x.key in s.w.cache ==> t.w.cache == s.w.cache[x.key :=
        Row(s.w.cache[x.key].kind, s.w.cache[x.key].text, s.w.cache[x.key].recvTime, x.retryNum + 1,
          s.d.now + (x.retryNum + 1) * c.interval)])
  {
  }

  /** Once all are updated the batch goes out in the order of the select, and touches only the log. */
  lemma SendEffect(c: Config, s: Sys)
    ensures Enabled(c, s, StartSends) ==> Next(c, s, StartSends) == Sys(s.w, Sending(s.d.batch))
    ensures Enabled(c, s, SendNext) ==>
      var t := Next(c, s, SendNext); t.d == Sending(s.d.batch[1..]) && t.w == s.w.(log := t.w.log)
    ensures Enabled(c, s, EndPass) ==> Next(c, s, EndPass) == Sys(s.w, Idle)
  {
  }
}
