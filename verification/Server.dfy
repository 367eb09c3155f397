/** The store-and-forward server: its tables, the request handlers as functions of the tables, the
    retransmission daemon, and runs in which handlers fall between any two steps of the daemon.
    The three integer fields that make up a message's key are unique in message_cache. */
module Server {
  import opened Bytes
  import opened Coder
  import opened Wrappers
  import Beams

  // ----- The tables -----

  datatype Key = Key(fromId: U32, toId: U32, frameId: U16)

  /** A row of message_cache, without its key columns. */
  datatype Row = Row(kind: byte, text: seq<byte>, recvTime: int, retryNum: nat, retryTime: int)

  /** A row of message_store. */
  datatype StoreRow = StoreRow(fromUser: U32, toUser: U32, frameId: U16, kind: byte, text: seq<byte>,
                               recvTime: int, sendTime: int)

  /** What leaves the server, with the beam it goes out on. */
  datatype Event =
    | Plain(key: Key, frame: seq<byte>, beam: int)
    | Ack(key: Key, beam: int)
    | Deliver(key: Key, frame: seq<byte>, beam: int)
    | Retry(key: Key, frame: seq<byte>, beam: int)
    | Reply(user: U32, beam: int)

  /** `users` is user_info, `cover` is sate_cover, `configured` the beams of schedule_address_. */
  datatype World = World(cache: map<Key, Row>, store: seq<StoreRow>, cover: map<U32, Beams.Cover>,
                         users: set<U32>, configured: set<int>, log: seq<Event>)

  const SIMPLE_MESSAGE: byte := 0x40
  const COMPLETE_MESSAGE: byte := 0x60
  const RECEIPT: byte := 0x80

  // ----- Sending -----

  function SatesOf(w: World, user: U32): seq<Beams.SateParam> {
    if user in w.cover then Beams.SateCover(w.cover[user]) else []
  }

  /** The beam a send to this user goes out on, if any. */
  function BeamFor(w: World, user: U32): Option<Beams.SateParam> {
    Beams.Choose(SatesOf(w, user), w.configured)
  }

  function Logged(w: World, user: U32, make: int -> Event): World {
    var b := BeamFor(w, user);
    if b.Some? then w.(log := w.log + [make(b.value.beam)]) else w
  }

  // ----- The message handlers -----

  function KeyOf(h: Head): Key {
    Key(h.fromId, h.toId, h.frameId)
  }

  /** 0x40: archive, then send once; neither cached nor acknowledged. `stored` is the outcome of
      the archive insert. */
  function ProcessSimple(w: World, h: Head, now: int, stored: bool): World {
    if !stored then w
    else
      var archived := w.(store := w.store + [StoreRow(h.fromId, h.toId, h.frameId, h.kind, CString(h.content), now, now)]);
      Logged(archived, h.toId, b => Plain(KeyOf(h), EncodeHead(h), b))
  }

  /** The cache takes a row when the database takes it and the key is free. */
  predicate Accepts(w: World, h: Head, inserted: bool) {
    inserted && KeyOf(h) !in w.cache
  }

  /** 0x60: cache, acknowledge to the sender, send to the addressee. */
  function ProcessComplete(w: World, h: Head, now: int, inserted: bool): World {
    if !Accepts(w, h, inserted) then w
    else
      var cached := w.(cache := w.cache[KeyOf(h) := Row(h.kind, CString(h.content), now, 0, now + 10)]);
      var acked := Logged(cached, h.fromId, b => Ack(KeyOf(h), b));
      Logged(acked, h.toId, b => Deliver(KeyOf(h), EncodeHead(h), b))
  }

  function ByteAt(b: seq<byte>, i: nat): byte {
    if i < |b| then b[i] else 0
  }

  /** The row a receipt speaks of: the acknowledging user is the addressee. */
  function ReceiptKey(h: Head): Key {
    Key(h.toId, h.fromId, Host16([ByteAt(h.content, 0), ByteAt(h.content, 1)]))
  }

  predicate Matches(w: World, h: Head) {
    && ByteAt(h.content, 2) == COMPLETE_MESSAGE
    && ReceiptKey(h) in w.cache
    && w.cache[ReceiptKey(h)].kind == COMPLETE_MESSAGE
  }

  /** The archive row binds the addressee to from_user and the sender to to_user. */
  function ArchiveRow(k: Key, row: Row, now: int): StoreRow {
    StoreRow(k.toId, k.fromId, k.frameId, row.kind, row.text, row.recvTime, now)
  }

  /** 0x80: delete from the cache, then insert into the archive; the insert's outcome is ignored. */
  function ProcessReceipt(w: World, h: Head, now: int, stored: bool): World {
    if !Matches(w, h) then w
    else
      var k := ReceiptKey(h);
      w.(cache := w.cache - {k}, store := if stored then w.store + [ArchiveRow(k, w.cache[k], now)] else w.store)
  }

  /** The dispatch on the type byte of a message; all other message types have empty handlers. */
  function AccessToLogic(w: World, h: Head, now: int, ok: bool): World {
    if h.kind == SIMPLE_MESSAGE then ProcessSimple(w, h, now, ok)
    else if h.kind == COMPLETE_MESSAGE then ProcessComplete(w, h, now, ok)
    else if h.kind == RECEIPT then ProcessReceipt(w, h, now, ok)
    else w
  }

  // ----- The coverage handlers -----

  /** UPDATE ... WHERE user_id: without a row nothing changes. */
  function StoreCover(w: World, user: U32, c: Beams.Cover): World {
    if user in w.cover then w.(cover := w.cover[user := c]) else w
  }

  /** The answer goes out over the beams of the report itself. */
  function Answered(w: World, user: U32, sates: seq<Beams.SateParam>): World {
    var b := Beams.Choose(sates, w.configured);
    if b.Some? then w.(log := w.log + [Reply(user, b.value.beam)]) else w
  }

  function ProcessLogin(w: World, user: U32, report: seq<Beams.SateParam>): World
    requires user in w.users ==> Beams.KnownBeams(report)
  {
    if report == [] then w
    else Answered(if user in w.users then StoreCover(w, user, Beams.CoverOf(report)) else w, user, report)
  }

  function ProcessMobileRequest(w: World, user: U32, report: seq<Beams.SateParam>): World
    requires Beams.KnownBeams(report)
  {
    if report == [] then w else Answered(StoreCover(w, user, Beams.CoverOf(report)), user, report)
  }

  function ProcessLogout(w: World, user: U32): World {
    Answered(StoreCover(w, user, Beams.NoCover()), user, SatesOf(w, user))
  }

  // ----- The daemon -----

  /** max_retry_count and msg_interval. */
  datatype Config = Config(maxRetry: int, interval: int)

  /** A selected row: the message, and the retry_num it was selected with. */
  datatype Selected = Selected(key: Key, kind: byte, text: seq<byte>, retryNum: nat)

  /** One pass: select, then update row by row, then send message by message. */
  datatype Daemon =
    | Idle
    | Updating(now: int, todo: seq<Selected>, batch: seq<Selected>)
    | Sending(batch: seq<Selected>)

  predicate Due(c: Config, w: World, now: int, k: Key) {
    k in w.cache && w.cache[k].retryNum < c.maxRetry && w.cache[k].retryTime <= now
  }

  /** `order` lists the due keys, each once, in the order the database returns them. */
  ghost predicate DueOrder(c: Config, w: World, now: int, order: seq<Key>) {
    && (forall k :: Due(c, w, now, k) <==> k in order)
    && (forall i, j :: 0 <= i < j < |order| ==> order[i] != order[j])
  }

  function SelectRow(w: World, k: Key): Selected
    requires k in w.cache
  {
    Selected(k, w.cache[k].kind, w.cache[k].text, w.cache[k].retryNum)
  }

  function SelectRows(w: World, order: seq<Key>): (r: seq<Selected>)
    requires forall k :: k in order ==> k in w.cache
    ensures |r| == |order| && forall i :: 0 <= i < |r| ==> r[i] == SelectRow(w, order[i])
  {
    seq(|order|, i requires 0 <= i < |order| => assert order[i] in order; SelectRow(w, order[i]))
  }

  /** UPDATE ... WHERE key: a row that has gone meanwhile stays gone. */
  function UpdateRow(c: Config, w: World, now: int, x: Selected): World {
    if x.key !in w.cache then w
    else
      var n := x.retryNum + 1;
      w.(cache := w.cache[x.key := w.cache[x.key].(retryNum := n, retryTime := now + n * c.interval)])
  }

  /** The message as the daemon encodes it: retain is always 0. */
  function RetryItem(x: Selected): Item {
    Item(x.key.toId, x.key.fromId, x.key.frameId, x.kind, 0, x.text)
  }

  function SendRetry(w: World, x: Selected): World {
    Logged(w, x.key.toId, b => Retry(x.key, EncodeItem(RetryItem(x)), b))
  }

  // ----- The whole system -----

  datatype Sys = Sys(w: World, d: Daemon)

  datatype Step =
    | Request(h: Head, now: int, ok: bool)
    | Login(user: U32, report: seq<Beams.SateParam>)
    | Mobile(user: U32, report: seq<Beams.SateParam>)
    | Logout(user: U32)
    | SelectDue(now: int, order: seq<Key>)
    | UpdateNext
    | StartSends
    | SendNext
    | EndPass

  /** Requests of type 0x00, 0x02 and 0x03 are the steps Login, Logout and Mobile. A report with a beam
      outside 1..10 stops the server at an assertion, so no step follows. */
  ghost predicate Enabled(c: Config, s: Sys, st: Step) {
    match st
    case Request(h, _, _) => h.kind != 0x00 && h.kind != 0x02 && h.kind != 0x03
    case Login(user, report) => report == [] || user !in s.w.users || Beams.KnownBeams(report)
    case Mobile(_, report) => Beams.KnownBeams(report)
    case Logout(_) => true
    case SelectDue(now, order) => s.d.Idle? && DueOrder(c, s.w, now, order)
    case UpdateNext => s.d.Updating? && s.d.todo != []
    case StartSends => s.d.Updating? && s.d.todo == []
    case SendNext => s.d.Sending? && s.d.batch != []
    case EndPass => s.d.Sending? && s.d.batch == []
  }

  ghost function Next(c: Config, s: Sys, st: Step): Sys
    requires Enabled(c, s, st)
  {
    match st
    case Request(h, now, ok) => s.(w := AccessToLogic(s.w, h, now, ok))
    case Login(user, report) => if report == [] then s else s.(w := ProcessLogin(s.w, user, report))
    case Mobile(user, report) => s.(w := ProcessMobileRequest(s.w, user, report))
    case Logout(user) => s.(w := ProcessLogout(s.w, user))
    case SelectDue(now, order) =>
      assert forall k :: k in order ==> Due(c, s.w, now, k);
      s.(d := Updating(now, SelectRows(s.w, order), []))
    case UpdateNext =>
      var x := s.d.todo[0];
      Sys(UpdateRow(c, s.w, s.d.now, x), Updating(s.d.now, s.d.todo[1..], s.d.batch + [x]))
    case StartSends => s.(d := Sending(s.d.batch))
    case SendNext => Sys(SendRetry(s.w, s.d.batch[0]), Sending(s.d.batch[1..]))
    case EndPass => s.(d := Idle)
  }

  /** Every step of the run is enabled where it is taken. */
  ghost predicate Runs(c: Config, s: Sys, steps: seq<Step>)
    decreases |steps|
  {
    steps == [] || (Enabled(c, s, steps[0]) && Runs(c, Next(c, s, steps[0]), steps[1..]))
  }

  ghost function End(c: Config, s: Sys, steps: seq<Step>): Sys
    requires Runs(c, s, steps)
    decreases |steps|
  {
    if steps == [] then s else End(c, Next(c, s, steps[0]), steps[1..])
  }

  lemma RunCons(c: Config, s: Sys, st: Step, rest: seq<Step>)
    requires Enabled(c, s, st) && Runs(c, Next(c, s, st), rest)
    ensures Runs(c, s, [st] + rest) && End(c, s, [st] + rest) == End(c, Next(c, s, st), rest)
  {
    assert ([st] + rest)[1..] == rest;
  }

  /** The step puts this message into the cache. */
  predicate Caches(s: Sys, st: Step) {
    st.Request? && st.h.kind == COMPLETE_MESSAGE && Accepts(s.w, st.h, st.ok)
  }

  /** The step takes a row out of the cache. */
  predicate Settles(s: Sys, st: Step) {
    st.Request? && st.h.kind == RECEIPT && Matches(s.w, st.h)
  }

  // ----- What each handler does to the tables -----

  lemma SimpleTables(w: World, h: Head, now: int, ok: bool)
    ensures var t := ProcessSimple(w, h, now, ok);
      t.cache == w.cache && t.cover == w.cover && t.users == w.users && t.configured == w.configured &&
      t.store == if ok then w.store + [StoreRow(h.fromId, h.toId, h.frameId, h.kind, CString(h.content), now, now)]
                 else w.store
  {
  }

  lemma CompleteTables(w: World, h: Head, now: int, ok: bool)
    ensures var t := ProcessComplete(w, h, now, ok);
      t.store == w.store && t.cover == w.cover && t.users == w.users && t.configured == w.configured &&
      t.cache == if Accepts(w, h, ok) then w.cache[KeyOf(h) := Row(h.kind, CString(h.content), now, 0, now + 10)]
                 else w.cache
  {
  }

  /** Every step but a message request leaves the archive alone; only UpdateNext among them
      touches the cache. */
  lemma OtherTables(c: Config, s: Sys, st: Step)
    requires Enabled(c, s, st) && !st.Request?
    ensures var t := Next(c, s, st);
      t.w.store == s.w.store &&
      t.w.cache == if st.UpdateNext? then UpdateRow(c, s.w, s.d.now, s.d.todo[0]).cache else s.w.cache
  {
  }
}
