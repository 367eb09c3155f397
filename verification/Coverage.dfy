/** Where sends go, over whole runs: the coverage table always holds each user's latest stored
    report, so every message and retry goes out on a beam of that report, and none goes out between
    a logout and the next report. */
module Coverage {
  import opened Coder
  import opened Server

  /** What the steps of a run last stored for a user. */
  datatype Latest = Unchanged | Report(report: seq<Beams.SateParam>) | LoggedOut

  /** What one step stores for the user; a login stores only for a known user, an empty report
      never. */
  predicate Reports(w: World, st: Step, user: U32) {
    || (st.Login? && st.user == user && st.report != [] && user in w.users)
    || (st.Mobile? && st.user == user && st.report != [])
  }

  function Stored(w: World, st: Step, user: U32): Latest {
    if (st.Login? || st.Mobile?) && Reports(w, st, user) then Report(st.report)
    else if st.Logout? && st.user == user then LoggedOut
    else Unchanged
  }

  ghost function LatestStored(c: Config, s: Sys, steps: seq<Step>, user: U32): Latest
    requires Runs(c, s, steps)
    decreases |steps|
  {
    if steps == [] then Unchanged
    else
      var later := LatestStored(c, Next(c, s, steps[0]), steps[1..], user);
      if later != Unchanged then later else Stored(s.w, steps[0], user)
  }

  /** The row that such a history leaves. */
  ghost predicate Holds(before: Beams.Cover, latest: Latest, row: Beams.Cover) {
    match latest
    case Unchanged => row == before
    case Report(report) => Beams.KnownBeams(report) && row == Beams.CoverOf(report)
    case LoggedOut => row == Beams.NoCover()
  }

  lemma LoggedCover(w: World, user: U32, make: int -> Event)
    ensures var t := Logged(w, user, make); t.cover == w.cover && t.users == w.users && t.configured == w.configured
  {
  }

  lemma RequestCover(w: World, h: Head, now: int, ok: bool)
    ensures var t := AccessToLogic(w, h, now, ok);
      t.cover == w.cover && t.users == w.users && t.configured == w.configured
  {
    SimpleTables(w, h, now, ok);
    CompleteTables(w, h, now, ok);
  }

  lemma AnsweredCover(w: World, user: U32, sates: seq<Beams.SateParam>)
    ensures var t := Answered(w, user, sates); t.cover == w.cover && t.users == w.users && t.configured == w.configured
  {
  }

  lemma StoredRow(w: World, who: U32, c: Beams.Cover, user: U32)
    ensures var t := StoreCover(w, who, c);
      t.users == w.users && t.configured == w.configured && (user in t.cover <==> user in w.cover) &&
      (user in w.cover ==> t.cover[user] == if user == who then c else w.cover[user])
  {
  }

  ghost predicate CoverStep(c: Config, s: Sys, st: Step, user: U32)
    requires Enabled(c, s, st)
  {
    var t := Next(c, s, st).w;
    t.users == s.w.users && t.configured == s.w.configured &&
    (user in t.cover <==> user in s.w.cover) &&
    (user in s.w.cover ==> Holds(s.w.cover[user], Stored(s.w, st, user), t.cover[user]))
  }

  lemma LoginCover(c: Config, s: Sys, who: U32, report: seq<Beams.SateParam>, user: U32)
    requires Enabled(c, s, Login(who, report))
    ensures CoverStep(c, s, Login(who, report), user)
  {
    if report != [] {
      if who in s.w.users {
        StoredRow(s.w, who, Beams.CoverOf(report), user);
        AnsweredCover(StoreCover(s.w, who, Beams.CoverOf(report)), who, report);
      } else {
        AnsweredCover(s.w, who, report);
      }
    }
  }

  lemma MobileCover(c: Config, s: Sys, who: U32, report: seq<Beams.SateParam>, user: U32)
    requires Enabled(c, s, Mobile(who, report))
    ensures CoverStep(c, s, Mobile(who, report), user)
  {
    if report != [] {
      StoredRow(s.w, who, Beams.CoverOf(report), user);
      AnsweredCover(StoreCover(s.w, who, Beams.CoverOf(report)), who, report);
    }
  }

  lemma LogoutCover(c: Config, s: Sys, who: U32, user: U32)
    ensures CoverStep(c, s, Logout(who), user)
  {
    StoredRow(s.w, who, Beams.NoCover(), user);
    AnsweredCover(StoreCover(s.w, who, Beams.NoCover()), who, SatesOf(s.w, who));
  }

  lemma StepCover(c: Config, s: Sys, st: Step, user: U32)
    requires Enabled(c, s, st)
    ensures CoverStep(c, s, st, user)
  {
    match st
    case Request(h, now, ok) => RequestCover(s.w, h, now, ok);
    case Login(who, report) => LoginCover(c, s, who, report, user);
    case Mobile(who, report) => MobileCover(c, s, who, report, user);
    case Logout(who) => LogoutCover(c, s, who, user);
    case SendNext =>
      var x := s.d.batch[0];
      LoggedCover(s.w, x.key.toId, b => Retry(x.key, EncodeItem(RetryItem(x)), b));
    case _ =>
  }

  /** The coverage table after any run: the latest report or logout that was stored, or what was
      there before. Users without a row never get one. */
  lemma {:induction false} CoverIsLatest(c: Config, s: Sys, steps: seq<Step>, user: U32)
    requires Runs(c, s, steps)
    ensures var t := End(c, s, steps).w;
      t.configured == s.w.configured && (user in t.cover <==> user in s.w.cover) &&
      (user in s.w.cover ==> Holds(s.w.cover[user], LatestStored(c, s, steps, user), t.cover[user]))
    decreases |steps|
  {
    if steps != [] {
      StepCover(c, s, steps[0], user);
      CoverIsLatest(c, Next(c, s, steps[0]), steps[1..], user);
    }
  }

  // ----- Sends -----

  /** A send of message traffic to a user: first delivery, plain message, retry or acknowledgement. */
  predicate GoesTo(e: Event, user: U32) {
    match e
    case Plain(k, _, _) => k.toId == user
    case Ack(k, _) => k.fromId == user
    case Deliver(k, _, _) => k.toId == user
    case Retry(k, _, _) => k.toId == user
    case Reply(_, _) => false
  }

  ghost predicate NewSend(c: Config, s: Sys, st: Step, i: nat, user: U32)
    requires Enabled(c, s, st)
  {
    |s.w.log| <= i < |Next(c, s, st).w.log| && GoesTo(Next(c, s, st).w.log[i], user)
  }

  /** The log grew by sends, and each to `user` is on the beam this coverage selects. */
  ghost predicate SendsUse(log: seq<Event>, log': seq<Event>, w: World) {
    log <= log' &&
    forall i :: |log| <= i < |log'| ==>
      forall user: U32 :: GoesTo(log'[i], user) ==>
        BeamFor(w, user).Some? && log'[i].beam == BeamFor(w, user).value.beam
  }

  lemma LoggedUses(w: World, user: U32, make: int -> Event, v: World)
    requires v.cover == w.cover && v.configured == w.configured
    requires forall b :: make(b).beam == b && forall u: U32 :: GoesTo(make(b), u) ==> u == user
    ensures SendsUse(w.log, Logged(w, user, make).log, v)
  {
    assert BeamFor(w, user) == BeamFor(v, user);
  }

  lemma UsesTwice(a: seq<Event>, b: seq<Event>, c: seq<Event>, w: World)
    requires SendsUse(a, b, w) && SendsUse(b, c, w)
    ensures SendsUse(a, c, w)
  {
    forall i, user: U32 | |a| <= i < |c| && GoesTo(c[i], user)
      ensures BeamFor(w, user).Some? && c[i].beam == BeamFor(w, user).value.beam
    {
      if i < |b| {
        assert c[i] == b[i];
      }
    }
  }

  lemma RequestUses(w: World, h: Head, now: int, ok: bool)
    ensures SendsUse(w.log, AccessToLogic(w, h, now, ok).log, w)
  {
    if h.kind == SIMPLE_MESSAGE && ok {
      var archived := w.(store := w.store + [StoreRow(h.fromId, h.toId, h.frameId, h.kind, CString(h.content), now, now)]);
      LoggedUses(archived, h.toId, b => Plain(KeyOf(h), EncodeHead(h), b), w);
    } else if h.kind == COMPLETE_MESSAGE && Accepts(w, h, ok) {
      var cached := w.(cache := w.cache[KeyOf(h) := Row(h.kind, CString(h.content), now, 0, now + 10)]);
      var acked := Logged(cached, h.fromId, b => Ack(KeyOf(h), b));
      LoggedUses(cached, h.fromId, b => Ack(KeyOf(h), b), w);
      LoggedUses(acked, h.toId, b => Deliver(KeyOf(h), EncodeHead(h), b), w);
      UsesTwice(cached.log, acked.log, ProcessComplete(w, h, now, ok).log, w);
    }
  }

  lemma RetryUses(w: World, x: Selected)
    ensures SendsUse(w.log, SendRetry(w, x).log, w)
  {
    LoggedUses(w, x.key.toId, b => Retry(x.key, EncodeItem(RetryItem(x)), b), w);
  }

  /** Answers to the coverage handlers are not message traffic. */
  lemma AnsweredUses(w: World, user: U32, sates: seq<Beams.SateParam>, v: World)
    ensures SendsUse(w.log, Answered(w, user, sates).log, v)
  {
  }

  /** Every send of a step goes out on the beam chosen from the coverage the step starts with. */
  lemma StepUses(c: Config, s: Sys, st: Step)
    requires Enabled(c, s, st)
    ensures SendsUse(s.w.log, Next(c, s, st).w.log, s.w)
  {
    match st
    case Request(h, now, ok) => RequestUses(s.w, h, now, ok);
    case SendNext => RetryUses(s.w, s.d.batch[0]);
    case Login(user, report) =>
      if report != [] {
        AnsweredUses(if user in s.w.users then StoreCover(s.w, user, Beams.CoverOf(report)) else s.w, user, report, s.w);
      }
    case Mobile(user, report) =>
      if report != [] {
        AnsweredUses(StoreCover(s.w, user, Beams.CoverOf(report)), user, report, s.w);
      }
    case Logout(user) => AnsweredUses(StoreCover(s.w, user, Beams.NoCover()), user, SatesOf(s.w, user), s.w);
    case _ =>
  }

  /** A step's send to a user uses the beam that is best in the coverage the step starts with. */
  lemma SendUsesRow(c: Config, s: Sys, st: Step, i: nat, user: U32)
    requires Enabled(c, s, st) && NewSend(c, s, st, i, user)
    ensures user in s.w.cover
    ensures Beams.BestSeen(s.w.cover[user], s.w.configured, Next(c, s, st).w.log[i].beam)
  {
    StepUses(c, s, st);
    assert BeamFor(s.w, user).Some?;
    Beams.DeliveryChoice(s.w.cover[user], s.w.configured);
  }

  /** A beam that is best in the coverage of a report was reported there, last, with positive SNR. */
  lemma BestWasReported(report: seq<Beams.SateParam>, configured: set<int>, beam: int) returns (j: nat)
    requires Beams.KnownBeams(report) && Beams.BestSeen(Beams.CoverOf(report), configured, beam)
    ensures Beams.LastFor(report, j) && report[j].beam == beam && report[j].snr > 0.0
  {
    j := Beams.PositiveWasReported(report, beam);
  }

  /** Over whole runs: after any run, a step's send to a user uses the configured beam with the
      best whole-number SNR of that user's latest stored report; no step sends to a user whose
      latest stored change is a logout. */
  lemma SendsFollowReports(c: Config, s: Sys, steps: seq<Step>, st: Step, i: nat, user: U32)
    requires Runs(c, s, steps) && Enabled(c, End(c, s, steps), st) && NewSend(c, End(c, s, steps), st, i, user)
    ensures user in s.w.cover
    ensures var latest := LatestStored(c, s, steps, user);
      var beam := Next(c, End(c, s, steps), st).w.log[i].beam;
      match latest
      case LoggedOut => false
      case Report(report) => Beams.KnownBeams(report) && Beams.BestSeen(Beams.CoverOf(report), s.w.configured, beam) &&
        exists j: nat :: Beams.LastFor(report, j) && report[j].beam == beam && report[j].snr > 0.0
      case Unchanged => Beams.BestSeen(s.w.cover[user], s.w.configured, beam)
  {
    var t := End(c, s, steps);
    CoverIsLatest(c, s, steps, user);
    SendUsesRow(c, t, st, i, user);
    if LatestStored(c, s, steps, user).Report? {
      var j := BestWasReported(LatestStored(c, s, steps, user).report, s.w.configured, Next(c, t, st).w.log[i].beam);
    }
  }
}
