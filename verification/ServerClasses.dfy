/** The server's classes over tables they update in place. Each method is proved equal to its
    function in Server or Passes. The database's row order and the outcome of each insert come in as
    parameters, as does the time; a method that encodes says whether the source stays in its buffer. */
module ServerClasses {
  import opened Bytes
  import opened Coder
  import opened Passes
  import opened Server
  import opened Wrappers

  class Database {
    var cache: map<Key, Row>
    var store: seq<StoreRow>
    var cover: map<U32, Beams.Cover>
    const users: set<U32>

    constructor (users: set<U32>)
      ensures cache == map[] && store == [] && cover == map[] && this.users == users
    {
      cache, store, cover := map[], [], map[];
      this.users := users;
    }

    method InsertStoreHead(h: Head, now: int, accepted: bool) returns (ok: bool)
      modifies this`store
      ensures ok == accepted
      ensures store == if accepted
        then old(store) + [StoreRow(h.fromId, h.toId, h.frameId, h.kind, CString(h.content), now, now)]
        else old(store)
    {
      if accepted {
        store := store + [StoreRow(h.fromId, h.toId, h.frameId, h.kind, CString(h.content), now, now)];
      }
      ok := accepted;
    }

    /** The addressee is bound to the first user column and the sender to the second. */
    method InsertStoreItem(msg: Item, recvTime: int, now: int, accepted: bool) returns (ok: bool)
      modifies this`store
      ensures ok == accepted
      ensures store == if accepted
        then old(store) + [StoreRow(msg.toId, msg.fromId, msg.frameId, msg.kind, CString(msg.content), recvTime, now)]
        else old(store)
    {
      if accepted {
        store := store + [StoreRow(msg.toId, msg.fromId, msg.frameId, msg.kind, CString(msg.content), recvTime, now)];
      }
      ok := accepted;
    }

    /** Fails on a key that is already cached. */
    method InsertOfflineMessage(h: Head, now: int, accepted: bool) returns (ok: bool)
      modifies this`cache
      ensures ok <==> accepted && KeyOf(h) !in old(cache)
      ensures cache == if ok then old(cache)[KeyOf(h) := Row(h.kind, CString(h.content), now, 0, now + 10)] else old(cache)
    {
      ok := accepted && KeyOf(h) !in cache;
      if ok {
        cache := cache[KeyOf(h) := Row(h.kind, CString(h.content), now, 0, now + 10)];
      }
    }

    method DeleteOfflineMessage(k: Key)
      modifies this`cache
      ensures cache == old(cache) - {k}
    {
      cache := cache - {k};
    }

    /** None where no row matches: then the source leaves a message whose type is not 0x60. */
    method GetOfflineMessage(k: Key) returns (found: Option<(Item, int)>)
      ensures found == if k in cache
        then Some((Item(k.toId, k.fromId, k.frameId, cache[k].kind, 0, cache[k].text), cache[k].recvTime))
        else None
    {
      if k in cache {
        found := Some((Item(k.toId, k.fromId, k.frameId, cache[k].kind, 0, cache[k].text), cache[k].recvTime));
      } else {
        found := None;
      }
    }

    method UpdateSateCover(user: U32, report: seq<Beams.SateParam>)
      requires Beams.KnownBeams(report)
      modifies this`cover
      ensures cover == if user in old(cover) then old(cover)[user := Beams.CoverOf(report)] else old(cover)
    {
      var snrs := Beams.UpdateSateCover(report);
      if user in cover {
        cover := cover[user := snrs];
      }
    }

    method GetSateCover(user: U32) returns (sates: seq<Beams.SateParam>)
      ensures sates == if user in cover then Beams.SateCover(cover[user]) else []
    {
      sates := [];
      if user in cover {
        sates := Beams.GetSateCover(cover[user]);
      }
    }

    /** The tables on their own, as the functions of Server take them. */
    ghost function Tables(): World
      reads this
    {
      World(cache, store, cover, users, {}, [])
    }

    /** The result set of the select: a snapshot of the listed rows. */
    method SelectMessages(order: seq<Key>) returns (rows: seq<Selected>)
      requires forall k :: k in order ==> k in cache
      ensures rows == SelectRows(Tables(), order)
    {
      rows := [];
      for i := 0 to |order|
        invariant |rows| == i && forall j :: 0 <= j < i ==> rows[j] == SelectRow(Tables(), order[j])
      {
        var k := order[i];
        rows := rows + [Selected(k, cache[k].kind, cache[k].text, cache[k].retryNum)];
      }
    }

    /** The update of one row's retry columns; a row that is gone stays gone. */
    method UpdateRetry(x: Selected, c: Config, now: int)
      modifies this`cache
      ensures Tables() == UpdateRow(c, old(Tables()), now, x)
    {
      var retryNum := x.retryNum + 1;
      if x.key in cache {
        cache := cache[x.key := cache[x.key].(retryNum := retryNum, retryTime := now + retryNum * c.interval)];
      }
    }

    /** Select the due rows, then rewrite each one's retry columns. */
    method GetAllOfflineMessage(c: Config, now: int, order: seq<Key>) returns (messages: seq<Selected>)
      requires DueOrder(c, Tables(), now, order)
      modifies this`cache
      ensures forall k :: k in order ==> k in old(cache)
      ensures messages == SelectRows(old(Tables()), order)
      ensures Tables() == UpdateAll(c, old(Tables()), now, messages)
    {
      assert forall k :: k in order ==> Due(c, Tables(), now, k);
      var rows := SelectMessages(order);
      messages := [];
      var i := 0;
      while i < |rows|
        invariant 0 <= i <= |rows| && messages == rows[..i]
        invariant Tables() == UpdateAll(c, old(Tables()), now, rows[..i])
      {
        messages := messages + [rows[i]];
        assert rows[..i + 1][..i] == rows[..i];
        UpdateRetry(rows[i], c, now);
        i := i + 1;
      }
      assert rows[..|rows|] == rows;
    }
  }

  class SendHelper {
    const configured: set<int>
    var log: seq<Event>

    constructor (configured: set<int>)
      ensures this.configured == configured && log == []
    {
      this.configured := configured;
      log := [];
    }

    /** The send, as far as the choice of a beam; `make` is what goes out on it. */
    method SendMessage(sates: seq<Beams.SateParam>, make: int -> Event) returns (sent: bool)
      modifies this`log
      ensures sent == Beams.Choose(sates, configured).Some?
      ensures log == if sent then old(log) + [make(Beams.Choose(sates, configured).value.beam)] else old(log)
    {
      var best := Beams.SelectBeam(sates, configured);
      sent := best.Some?;
      if sent {
        log := log + [make(best.value.beam)];
      }
    }
  }

  /** MessageManager, MobileManager and QosSendDaemon on one database and one sender. */
  class LogicServer {
    const database: Database
    const sender: SendHelper

    constructor (database: Database, sender: SendHelper)
      ensures this.database == database && this.sender == sender
    {
      this.database, this.sender := database, sender;
    }

    ghost function View(): World
      reads this, database, sender
    {
      World(database.cache, database.store, database.cover, database.users, sender.configured, sender.log)
    }

    /** Cached texts are C strings: what ProcessCompleteMessage stores. */
    ghost predicate Valid()
      reads this, database
    {
      forall k :: k in database.cache ==> 0 !in database.cache[k].text
    }

    /** False where the source would leave the encoder's buffer: only there is the effect undefined. */
    method ProcessSimpleMessage(h: Head, now: int, accepted: bool) returns (ran: bool)
      requires Valid()
      modifies database, sender
      ensures ran <==> (accepted && SatesOf(old(View()), h.toId) != [] ==> |EncodeHead(h)| <= BUFFER_SIZE)
      ensures Valid() && (ran ==> View() == ProcessSimple(old(View()), h, now, accepted))
    {
      var ok := database.InsertStoreHead(h, now, accepted);
      if !ok {
        return true;
      }
      ghost var stored := View();
      var sates := database.GetSateCover(h.toId);
      if sates != [] {
        var frame := MessageEncodeHead(h);
        if frame.None? {
          return false;
        }
        var sent := sender.SendMessage(sates, b => Plain(KeyOf(h), frame.value, b));
        SameEvents(stored, h.toId, b => Plain(KeyOf(h), frame.value, b), b => Plain(KeyOf(h), EncodeHead(h), b));
      }
      ran := true;
    }

    method Acknowledge(h: Head, sates: seq<Beams.SateParam>)
      requires sates == SatesOf(View(), h.fromId)
      modifies sender
      ensures View() == Logged(old(View()), h.fromId, b => Ack(KeyOf(h), b))
    {
      if sates != [] {
        var sent := sender.SendMessage(sates, b => Ack(KeyOf(h), b));
      }
    }

    method DeliverFrame(h: Head, sates: seq<Beams.SateParam>) returns (ran: bool)
      requires sates == SatesOf(View(), h.toId)
      modifies sender
      ensures ran <==> (sates != [] ==> |EncodeHead(h)| <= BUFFER_SIZE)
      ensures ran ==> View() == Logged(old(View()), h.toId, b => Deliver(KeyOf(h), EncodeHead(h), b))
    {
      if sates != [] {
        var frame := MessageEncodeHead(h);
        if frame.None? {
          return false;
        }
        var sent := sender.SendMessage(sates, b => Deliver(KeyOf(h), frame.value, b));
        SameEvents(old(View()), h.toId, b => Deliver(KeyOf(h), frame.value, b), b => Deliver(KeyOf(h), EncodeHead(h), b));
      }
      ran := true;
    }

    method ProcessCompleteMessage(h: Head, now: int, accepted: bool) returns (ran: bool)
      requires Valid()
      modifies database, sender
      ensures ran <==>
        (Accepts(old(View()), h, accepted) && SatesOf(old(View()), h.toId) != [] ==> |EncodeHead(h)| <= BUFFER_SIZE)
      ensures Valid() && (ran ==> View() == ProcessComplete(old(View()), h, now, accepted))
    {
      var ok := database.InsertOfflineMessage(h, now, accepted);
      if !ok {
        return true;
      }
      ghost var cached := View();
      var satesToUser := database.GetSateCover(h.toId);
      var satesFromUser := database.GetSateCover(h.fromId);
      Acknowledge(h, satesFromUser);
      ghost var acked := View();
      SameEvents(cached, h.fromId, b => Ack(KeyOf(h), b), b => Ack(KeyOf(h), b));
      ran := DeliverFrame(h, satesToUser);
      SameEvents(acked, h.toId, b => Deliver(KeyOf(h), EncodeHead(h), b), b => Deliver(KeyOf(h), EncodeHead(h), b));
    }

    method ProcessReceipt(h: Head, now: int, accepted: bool)
      requires Valid()
      modifies database
      ensures Valid() && View() == Server.ProcessReceipt(old(View()), h, now, accepted)
    {
      if ByteAt(h.content, 2) != COMPLETE_MESSAGE {
        return;
      }
      var k := ReceiptKey(h);
      var found := database.GetOfflineMessage(k);
      if found.Some? && found.value.0.kind == COMPLETE_MESSAGE {
        CStringIsStable(found.value.0.content);
        database.DeleteOfflineMessage(k);
        var ok := database.InsertStoreItem(found.value.0, found.value.1, now, accepted);
      }
    }

    method Answer(user: U32, sates: seq<Beams.SateParam>)
      modifies sender
      ensures View() == Answered(old(View()), user, sates)
    {
      var sent := sender.SendMessage(sates, b => Reply(user, b));
    }

    method ProcessLogin(user: U32, report: seq<Beams.SateParam>)
      requires user in database.users ==> Beams.KnownBeams(report)
      modifies database, sender
      ensures old(Valid()) ==> Valid()
      ensures View() == Server.ProcessLogin(old(View()), user, report)
    {
      if |report| == 0 {
        return;
      }
      if user in database.users {
        database.UpdateSateCover(user, report);
      }
      Answer(user, report);
    }

    method ProcessMobileRequest(user: U32, report: seq<Beams.SateParam>)
      requires Beams.KnownBeams(report)
      modifies database, sender
      ensures old(Valid()) ==> Valid()
      ensures View() == Server.ProcessMobileRequest(old(View()), user, report)
    {
      if |report| == 0 {
        return;
      }
      database.UpdateSateCover(user, report);
      Answer(user, report);
    }

    method ProcessLogout(user: U32)
      modifies database, sender
      ensures old(Valid()) ==> Valid()
      ensures View() == Server.ProcessLogout(old(View()), user)
    {
      var sates := database.GetSateCover(user);
      database.UpdateSateCover(user, []);
      Answer(user, sates);
    }

    method SendOne(x: Selected) returns (ran: bool)
      modifies sender
      ensures ran <==> Encodable(old(View()), x)
      ensures ran ==> View() == SendRetry(old(View()), x)
    {
      var sates := database.GetSateCover(x.key.toId);
      if sates == [] {
        return true;
      }
      ItemFits(RetryItem(x));
      var frame := MessageEncodeItem(RetryItem(x));
      if frame.None? {
        return false;
      }
      var sent := sender.SendMessage(sates, b => Retry(x.key, frame.value, b));
      SameEvents(old(View()), x.key.toId, b => Retry(x.key, frame.value, b),
        b => Retry(x.key, EncodeItem(RetryItem(x)), b));
      ran := true;
    }

    /** The loop over the batch. */
    method SendBatch(messages: seq<Selected>) returns (ran: bool)
      modifies sender
      ensures ran <==> AllEncodable(old(View()), messages)
      ensures ran ==> View() == SendAll(old(View()), messages)
    {
      ghost var w := View();
      for i := 0 to |messages|
        invariant AllEncodable(w, messages[..i])
        invariant View() == SendAll(w, messages[..i])
      {
        SendAllOnlyLog(w, messages[..i]);
        SendAllSnoc(w, messages, i);
        OneMoreEncodes(w, View(), messages, i);
        ran := SendOne(messages[i]);
        if !ran {
          return;
        }
      }
      assert messages[..|messages|] == messages;
      ran := true;
    }

    /** The batch of a pass, with its rows already updated. */
    method TakeBatch(c: Config, now: int, order: seq<Key>) returns (messages: seq<Selected>)
      requires Valid() && DueOrder(c, View(), now, order)
      modifies database
      ensures Valid() && (forall k :: k in order ==> k in old(View()).cache)
      ensures messages == SelectRows(old(View()), order) && View() == UpdateAll(c, old(View()), now, messages)
    {
      ghost var w, tables := View(), database.Tables();
      assert forall k :: Due(c, w, now, k) <==> Due(c, tables, now, k);
      messages := database.GetAllOfflineMessage(c, now, order);
      UpdateAllReadsCache(c, tables, w, now, messages);
      UpdateAllOnlyCache(c, w, now, messages);
      UpdateAllOnlyCache(c, tables, now, messages);
      UpdateAllKeepsTexts(c, w, now, messages);
    }

    /** One turn of the daemon's loop, undisturbed. */
    method Pass(c: Config, now: int, order: seq<Key>) returns (ran: bool)
      requires Valid() && DueOrder(c, View(), now, order)
      modifies database, sender
      ensures forall k :: k in order ==> k in old(View()).cache
      ensures ran <==> AllEncodable(old(View()), SelectRows(old(View()), order))
      ensures Valid() && (ran ==> View() == PassResult(c, old(View()), now, order))
    {
      ghost var w := View();
      var messages := TakeBatch(c, now, order);
      UpdateAllOnlyCache(c, w, now, messages);
      forall i | 0 <= i < |messages|
        ensures Encodable(View(), messages[i]) <==> Encodable(w, messages[i])
      {
        SameCoverEncodes(View(), w, messages[i]);
      }
      ran := SendBatch(messages);
    }
  }

  /** The retry stays in the encoder's buffer, or is not encoded because no beam covers the user. */
  predicate Encodable(w: World, x: Selected) {
    SatesOf(w, x.key.toId) != [] ==> |x.text| <= MAX_TEXT
  }

  predicate AllEncodable(w: World, xs: seq<Selected>) {
    forall i :: 0 <= i < |xs| ==> Encodable(w, xs[i])
  }

  lemma SameCoverEncodes(v: World, w: World, x: Selected)
    requires v.cover == w.cover
    ensures Encodable(v, x) <==> Encodable(w, x)
  {
  }

  lemma OneMoreEncodes(w: World, v: World, xs: seq<Selected>, i: nat)
    requires v.cover == w.cover && i < |xs| && AllEncodable(w, xs[..i])
    ensures AllEncodable(w, xs[..i + 1]) <==> Encodable(v, xs[i])
    ensures AllEncodable(w, xs) ==> Encodable(v, xs[i])
  {
    SameCoverEncodes(v, w, xs[i]);
    assert xs[..i + 1] == xs[..i] + [xs[i]];
  }

  lemma SameEvents(w: World, user: U32, f: int -> Event, g: int -> Event)
    requires forall b :: f(b) == g(b)
    ensures Logged(w, user, f) == Logged(w, user, g)
  {
  }

  // ----- Parsing a coverage report -----

  /** The report behind a request's fixed part: a flag, a count, and six bytes an entry, of which
      the last four hold the SNR; `snrOf` is the host's reading of a float. */
  function Entry(content: seq<byte>, i: nat, snrOf: seq<byte> -> real): Beams.SateParam
    requires 2 + 6 * (i + 1) <= |content|
  {
    var at := 2 + 6 * i;
    Beams.SateParam(content[at] as int, content[at + 1] as int, snrOf(content[at + 2..at + 6]))
  }

  /** The content holds its two fixed bytes and every entry announced. */
  predicate Complete(content: seq<byte>) {
    |content| >= 2 && 2 + 6 * content[1] as int <= |content|
  }

  /** All the entries its count byte announces. */
  function ReportIn(content: seq<byte>, snrOf: seq<byte> -> real): seq<Beams.SateParam>
    requires Complete(content)
  {
    seq(content[1] as int, i requires 0 <= i < content[1] as int => Entry(content, i, snrOf))
  }

  lemma EntryByEntry(content: seq<byte>, snrOf: seq<byte> -> real, report: seq<Beams.SateParam>)
    requires Complete(content) && |report| == content[1] as int
    requires forall i :: 0 <= i < |report| ==> Entry(content, i, snrOf) == report[i]
    ensures ReportIn(content, snrOf) == report
  {
  }

  /** None where the source would read past the content. */
  method ParseReport(content: seq<byte>, snrOf: seq<byte> -> real) returns (r: Option<seq<Beams.SateParam>>)
    ensures r == if Complete(content) then Some(ReportIn(content, snrOf)) else None
    ensures r.None? <==> |content| < 2 || |content| < 2 + 6 * content[1] as int
    ensures r.Some? ==> |r.value| == content[1] as int
    ensures r.Some? ==> forall i :: 0 <= i < |r.value| ==>
      r.value[i].sate == content[2 + 6 * i] as int && r.value[i].beam == content[3 + 6 * i] as int &&
      r.value[i].snr == snrOf(content[4 + 6 * i..8 + 6 * i])
  {
    if |content| < 2 {
      return None;
    }
    var pos := 1;
    var num := content[pos] as int;
    pos := pos + 1;
    var report := [];
    for i := 0 to num
      invariant |report| == i && pos == 2 + 6 * i <= |content|
      invariant forall j :: 0 <= j < i ==> report[j] == Entry(content, j, snrOf)
    {
      if pos + 6 > |content| {
        return None;
      }
      var sate := content[pos] as int;
      pos := pos + 1;
      var beam := content[pos] as int;
      pos := pos + 1;
      report := report + [Beams.SateParam(sate, beam, snrOf(content[pos..pos + 4]))];
      pos := pos + 4;
    }
    EntryByEntry(content, snrOf, report);
    r := Some(report);
  }

  /** A report as a terminal writes it: satellite, beam, and the four bytes of the SNR. */
  function EntryBytes(e: Beams.SateParam, floatOf: real -> seq<byte>): seq<byte>
    requires 0 <= e.sate < 256 && 0 <= e.beam < 256
  {
    [e.sate as byte, e.beam as byte] + floatOf(e.snr)
  }

  /** The entry's SNR is a value that four bytes can hold. */
  predicate Writable(e: Beams.SateParam, floatOf: real -> seq<byte>, snrOf: seq<byte> -> real) {
    0 <= e.sate < 256 && 0 <= e.beam < 256 && |floatOf(e.snr)| == 4 && snrOf(floatOf(e.snr)) == e.snr
  }

  predicate AllWritable(report: seq<Beams.SateParam>, floatOf: real -> seq<byte>, snrOf: seq<byte> -> real) {
    |report| < 256 && forall i :: 0 <= i < |report| ==> Writable(report[i], floatOf, snrOf)
  }

  function ReportBytes(report: seq<Beams.SateParam>, floatOf: real -> seq<byte>, snrOf: seq<byte> -> real): (b: seq<byte>)
    requires AllWritable(report, floatOf, snrOf)
    ensures |b| == 6 * |report|
    decreases |report|
  {
    if report == [] then []
    else ReportBytes(report[..|report| - 1], floatOf, snrOf) + EntryBytes(report[|report| - 1], floatOf)
  }

  lemma {:induction false} ReportEntry(report: seq<Beams.SateParam>, floatOf: real -> seq<byte>,
      snrOf: seq<byte> -> real, i: nat)
    requires AllWritable(report, floatOf, snrOf) && i < |report|
    ensures ReportBytes(report, floatOf, snrOf)[6 * i..6 * i + 6] == EntryBytes(report[i], floatOf)
    decreases |report|
  {
    var n := |report| - 1;
    var front := ReportBytes(report[..n], floatOf, snrOf);
    if i < n {
      ReportEntry(report[..n], floatOf, snrOf, i);
      assert ReportBytes(report, floatOf, snrOf)[6 * i..6 * i + 6] == front[6 * i..6 * i + 6];
    }
  }

  lemma EntryRoundTrip(content: seq<byte>, i: nat, e: Beams.SateParam, floatOf: real -> seq<byte>,
      snrOf: seq<byte> -> real)
    requires Writable(e, floatOf, snrOf) && 2 + 6 * (i + 1) <= |content|
    requires content[2 + 6 * i..8 + 6 * i] == EntryBytes(e, floatOf)
    ensures Entry(content, i, snrOf) == e
  {
    var at := 2 + 6 * i;
    var entry := content[at..at + 6];
    assert content[at] == entry[0] && content[at + 1] == entry[1];
    assert content[at + 2..at + 6] == entry[2..6] == floatOf(e.snr);
  }

  lemma BehindPrefix(a: seq<byte>, b: seq<byte>, from: nat, to: nat)
    requires from <= to <= |b|
    ensures (a + b)[|a| + from..|a| + to] == b[from..to]
  {
  }

  lemma WrittenEntry(report: seq<Beams.SateParam>, head: seq<byte>, tail: seq<byte>, floatOf: real -> seq<byte>,
      snrOf: seq<byte> -> real, i: nat)
    requires AllWritable(report, floatOf, snrOf) && |head| == 2 && i < |report|
    ensures |ReportBytes(report, floatOf, snrOf)| == 6 * |report|
    ensures Entry(head + (ReportBytes(report, floatOf, snrOf) + tail), i, snrOf) == report[i]
  {
    var body := ReportBytes(report, floatOf, snrOf);
    ReportEntry(report, floatOf, snrOf, i);
    assert (body + tail)[6 * i..6 * i + 6] == body[6 * i..6 * i + 6];
    BehindPrefix(head, body + tail, 6 * i, 6 * i + 6);
    EntryRoundTrip(head + (body + tail), i, report[i], floatOf, snrOf);
  }

  /** Parsing gives back the whole report a terminal wrote, entry for entry, whatever follows it. */
  lemma ReportRoundTrip(report: seq<Beams.SateParam>, flag: byte, tail: seq<byte>, floatOf: real -> seq<byte>,
      snrOf: seq<byte> -> real)
    requires AllWritable(report, floatOf, snrOf)
    ensures var content := [flag, |report| as byte] + (ReportBytes(report, floatOf, snrOf) + tail);
      Complete(content) && ReportIn(content, snrOf) == report
  {
    var head := [flag, |report| as byte];
    var content := head + (ReportBytes(report, floatOf, snrOf) + tail);
    forall i | 0 <= i < |report|
      ensures Entry(content, i, snrOf) == report[i]
    {
      WrittenEntry(report, head, tail, floatOf, snrOf, i);
    }
    assert content[1] == head[1];
    EntryByEntry(content, snrOf, report);
  }
}
