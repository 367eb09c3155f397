/** The ring buffer of src/commons/fifo_queue.cpp as a value, its operations as functions of the
    whole state, and the proof that they refine a queue of packets. */
module Ring {
  import opened Bytes
  import opened Wrappers

  const MAX_PACK_SIZE: nat := 65535
  const END_FLAG: nat := 0
  const PACK_LEN_SIZE: nat := 2

  /** `r` and `w` are the offsets of read_pos_ and write_pos_, `rb` and `wb` the two counters. */
  datatype Ring = Ring(buf: seq<byte>, r: nat, w: nat, rb: nat, wb: nat) {
    predicate Sane() {
      r <= |buf| && w <= |buf| && rb <= wb
    }
  }

  function Fresh(buf: seq<byte>): (s: Ring)
    ensures s.Sane()
  {
    Ring(buf, 0, 0, 0, 0)
  }

  // ----- The operations, branch by branch -----

  /** The admission test: it counts the queued bytes but not a skipped tail. */
  predicate Admits(s: Ring, len: nat) {
    s.wb + 2 * len + 2 * (PACK_LEN_SIZE - 1) <= s.rb + |s.buf|
  }

  /** Where the next packet of length `len` starts. */
  function Slot(s: Ring, len: nat): nat {
    if s.w + PACK_LEN_SIZE > |s.buf| || s.w + len + PACK_LEN_SIZE > |s.buf| then 0 else s.w
  }

  /** The buffer after the wrap marker, if one is written. */
  function Marked(s: Ring, len: nat): (buf: seq<byte>)
    ensures |buf| == |s.buf|
  {
    if s.w + PACK_LEN_SIZE > |s.buf| then s.buf
    else if s.w + len + PACK_LEN_SIZE > |s.buf| then Write(s.buf, s.w, WordBytes(END_FLAG))
    else s.buf
  }

  /** The write stays inside the buffer; true of every admitted push to a sane ring. */
  predicate InBounds(s: Ring, len: nat) {
    s.w <= |s.buf| && (Admits(s, len) ==> Slot(s, len) + PACK_LEN_SIZE + len <= |s.buf|)
  }

  function Push(s: Ring, packet: seq<byte>): (t: Ring)
    requires InBounds(s, |packet|) && |packet| < MAX_PACK_SIZE
    ensures |t.buf| == |s.buf| && t.w <= |t.buf|
    ensures s.Sane() ==> t.Sane()
  {
    var len := |packet|;
    if !Admits(s, len) then s
    else
      var at := Slot(s, len);
      var buf := Write(Marked(s, len), at, WordBytes(len) + packet);
      s.(buf := buf, w := at + PACK_LEN_SIZE + len, wb := s.wb + len + PACK_LEN_SIZE)
  }

  /** Where the next length word is read, after skipping a tail or a marker. None where the
      source would read outside the buffer. */
  function NextHeader(s: Ring): (h: Option<nat>)
    ensures h.Some? ==> h.value + PACK_LEN_SIZE <= |s.buf|
  {
    var r := if s.r + PACK_LEN_SIZE > |s.buf| then 0 else s.r;
    if |s.buf| < PACK_LEN_SIZE then None
    else if Word(s.buf, r) == END_FLAG then Some(0) else Some(r)
  }

  /** None where the packet would run past the buffer. */
  function Pop(s: Ring): (o: Option<(seq<byte>, Ring)>)
    requires s.rb < s.wb
  {
    match NextHeader(s)
    case None => None
    case Some(h) =>
      var len := Word(s.buf, h);
      var from := h + PACK_LEN_SIZE;
      if from + len > |s.buf| then None
      else Some((s.buf[from..from + len], s.(r := from + len, rb := s.rb + len + PACK_LEN_SIZE)))
  }

  function Peek(s: Ring): (o: Option<(nat, Ring)>) {
    if s.rb >= s.wb then Some((0, s))
    else
      match NextHeader(s)
      case None => None
      case Some(h) => Some((Word(s.buf, h), s.(r := h)))
  }

  // ----- Packets as bytes -----

  predicate Sendable(p: seq<byte>) {
    1 <= |p| < MAX_PACK_SIZE
  }

  /** What the source can frame: a length below MAX_PACK_SIZE that is not the marker's. */
  type Packet = p: seq<byte> | Sendable(p) witness [0]

  type PacketLength = l: nat | 1 <= l < MAX_PACK_SIZE witness 1

  /** In numbers: packets of 1 to 65534 bytes, each behind a length word of two. */
  lemma PacketLengths(p: Packet)
    ensures forall q: seq<byte> :: Sendable(q) <==> 1 <= |q| <= 65534
    ensures |Encode([p])| == 2 + |p| && Encode([p])[0] as int + 256 * Encode([p])[1] as int == |p|
  {
    EncodeOne(p);
  }

  function Encode(q: seq<Packet>): (b: seq<byte>)
  {
    if q == [] then [] else WordBytes(|q[0]|) + q[0] + Encode(q[1..])
  }

  lemma {:induction false} EncodeAppends(q: seq<Packet>, t: seq<Packet>)
    ensures Encode(q + t) == Encode(q) + Encode(t)
    decreases |q|
  {
    if q == [] {
      assert q + t == t;
    } else {
      assert (q + t)[1..] == q[1..] + t;
      EncodeAppends(q[1..], t);
    }
  }

  lemma EncodeOne(p: Packet)
    ensures Encode([p]) == WordBytes(|p|) + p
  {
    assert Encode([p][1..]) == [];
  }

  // ----- The representation: linear or wrapped -----

  /** Linear: the packets fill [r, w). Wrapped: q1 fills [r, e), q2 fills [0, w), and a marker
      stands at e if two bytes are left there. */
  datatype View = Linear(q: seq<Packet>) | Wrapped(q1: seq<Packet>, q2: seq<Packet>, e: nat) {
    function Contents(): seq<Packet> {
      if Linear? then q else q1 + q2
    }
  }

  /** The reader stands on a tail too short for a marker, so it will go on at 0. */
  predicate Skipping(s: Ring, v: View) {
    match v
    case Linear(q) => q == [] && s.w + PACK_LEN_SIZE > |s.buf|
    case Wrapped(q1, q2, e) => q1 == [] && e + PACK_LEN_SIZE > |s.buf|
  }

  /** `s` represents the packets of `v`. The reader stands at 0 or behind a length word. */
  ghost predicate Rep(s: Ring, v: View) {
    && s.Sane()
    && (s.r == 0 || s.r >= PACK_LEN_SIZE)
    && s.wb == s.rb + |Encode(v.Contents())|
    && match v
       case Linear(q) => s.r <= s.w && s.buf[s.r..s.w] == Encode(q)
       case Wrapped(q1, q2, e) =>
         && 0 < e && s.r <= e <= |s.buf|
         && (s.w <= s.r || Skipping(s, v))
         && s.buf[s.r..e] == Encode(q1)
         && s.buf[..s.w] == Encode(q2)
         && (e + PACK_LEN_SIZE <= |s.buf| ==> Word(s.buf, e) == END_FLAG)
  }

  /** The push does not reach what the reader still needs. */
  predicate Room(s: Ring, v: View, len: nat) {
    var limit := if Skipping(s, v) then |s.buf| else s.r;
    if v.Linear? then s.w + PACK_LEN_SIZE + len <= |s.buf| || PACK_LEN_SIZE + len <= limit
    else s.w + PACK_LEN_SIZE + len <= limit
  }

  function PushView(s: Ring, v: View, p: Packet): View {
    match v
    case Linear(q) =>
      if s.w + PACK_LEN_SIZE + |p| <= |s.buf| then Linear(q + [p]) else Wrapped(q, [p], s.w)
    case Wrapped(q1, q2, e) => Wrapped(q1, q2 + [p], e)
  }

  lemma PushCounts(s: Ring, v: View, p: Packet)
    requires Rep(s, v)
    ensures PushView(s, v, p).Contents() == v.Contents() + [p]
    ensures |Encode(v.Contents() + [p])| == |Encode(v.Contents())| + PACK_LEN_SIZE + |p|
  {
    EncodeAppends(v.Contents(), [p]);
    EncodeOne(p);
    assert PushView(s, v, p).Contents() == v.Contents() + [p];
  }

  /** Writing a framed packet right behind a run of packets extends the run. */
  lemma AppendRegion(buf: seq<byte>, from: nat, at: nat, q: seq<Packet>, p: Packet)
    requires from <= at && at + PACK_LEN_SIZE + |p| <= |buf|
    requires buf[from..at] == Encode(q)
    ensures Write(buf, at, WordBytes(|p|) + p)[from..at + PACK_LEN_SIZE + |p|] == Encode(q + [p])
  {
    var data := WordBytes(|p|) + p;
    var t := Write(buf, at, data);
    var end := at + PACK_LEN_SIZE + |p|;
    WriteSpares(buf, at, data, from, at);
    WriteReads(buf, at, data);
    EncodeAppends(q, [p]);
    EncodeOne(p);
    assert t[from..end] == t[from..at] + t[at..end];
  }

  lemma PushInLine(s: Ring, v: View, p: Packet)
    requires Rep(s, v) && v.Linear? && Admits(s, |p|)
    requires s.w + PACK_LEN_SIZE + |p| <= |s.buf|
    ensures Rep(Push(s, p), PushView(s, v, p))
  {
    PushCounts(s, v, p);
    AppendRegion(s.buf, s.r, s.w, v.q, p);
  }

  lemma BehindKeeps(buf: seq<byte>, at: nat, data: seq<byte>, r: nat, e: nat)
    requires at + |data| <= r <= e <= |buf|
    ensures Write(buf, at, data)[r..e] == buf[r..e]
    ensures e + 2 <= |buf| ==> Word(Write(buf, at, data), e) == Word(buf, e)
  {
    WriteSpares(buf, at, data, r, e);
  }

  lemma PushWrapped(s: Ring, v: View, p: Packet)
    requires Rep(s, v) && v.Wrapped? && Admits(s, |p|) && Room(s, v, |p|)
    ensures var t := Push(s, p);
      t == Ring(Write(s.buf, s.w, WordBytes(|p|) + p), s.r, s.w + PACK_LEN_SIZE + |p|, s.rb, s.wb + PACK_LEN_SIZE + |p|)
  {
  }

  /** The buffer after a push behind the second run. */
  lemma ExtendedBuffer(s: Ring, q1: seq<Packet>, q2: seq<Packet>, e: nat, p: Packet)
    requires Rep(s, Wrapped(q1, q2, e)) && Room(s, Wrapped(q1, q2, e), |p|)
    ensures s.w + PACK_LEN_SIZE + |p| <= |s.buf|
    ensures var t := Write(s.buf, s.w, WordBytes(|p|) + p);
      t[..s.w + PACK_LEN_SIZE + |p|] == Encode(q2 + [p]) && t[s.r..e] == Encode(q1) &&
      (e + PACK_LEN_SIZE <= |t| ==> Word(t, e) == END_FLAG)
  {
    var t := Write(s.buf, s.w, WordBytes(|p|) + p);
    assert s.buf[..s.w] == s.buf[0..s.w];
    AppendRegion(s.buf, 0, s.w, q2, p);
    assert t[..s.w + PACK_LEN_SIZE + |p|] == t[0..s.w + PACK_LEN_SIZE + |p|];
    if !Skipping(s, Wrapped(q1, q2, e)) {
      BehindKeeps(s.buf, s.w, WordBytes(|p|) + p, s.r, e);
    }
  }

  lemma PushBehind(s: Ring, v: View, p: Packet)
    requires Rep(s, v) && v.Wrapped? && Admits(s, |p|) && Room(s, v, |p|)
    ensures Rep(Push(s, p), PushView(s, v, p))
  {
    PushCounts(s, v, p);
    PushWrapped(s, v, p);
    ExtendedBuffer(s, v.q1, v.q2, v.e, p);
  }

  /** A write in front of `to` and a marker behind leave [from, to) alone. */
  lemma AroundKeeps(s: Ring, data: seq<byte>, from: nat, len: nat)
    requires from <= s.w <= |s.buf| && s.w + len + PACK_LEN_SIZE > |s.buf| && |data| <= from
    ensures Write(Marked(s, len), 0, data)[from..s.w] == s.buf[from..s.w]
  {
    var marked := Marked(s, len);
    if s.w + PACK_LEN_SIZE <= |s.buf| {
      WriteSpares(s.buf, s.w, WordBytes(END_FLAG), from, s.w);
    }
    WriteSpares(marked, 0, data, from, s.w);
  }

  lemma AroundMarks(s: Ring, data: seq<byte>, len: nat)
    requires s.w + PACK_LEN_SIZE <= |s.buf| < s.w + len + PACK_LEN_SIZE && |data| <= s.w
    ensures Word(Write(Marked(s, len), 0, data), s.w) == END_FLAG
  {
    assert Marked(s, len)[s.w] == 0 && Marked(s, len)[s.w + 1] == 0;
  }

  lemma PushTurns(s: Ring, v: View, p: Packet)
    requires Rep(s, v) && v.Linear? && Admits(s, |p|)
    requires s.w + PACK_LEN_SIZE + |p| > |s.buf|
    ensures var marked := Marked(s, |p|); var data := WordBytes(|p|) + p;
      |data| <= |s.buf| && s.w > 0 &&
      Push(s, p) == Ring(Write(marked, 0, data), s.r, |data|, s.rb, s.wb + PACK_LEN_SIZE + |p|)
  {
  }

  /** The buffer after a push that turns: the packet at 0, the old run and a marker behind it. */
  lemma TurnedBuffer(s: Ring, q: seq<Packet>, p: Packet)
    requires Rep(s, Linear(q)) && Admits(s, |p|) && Room(s, Linear(q), |p|)
    requires s.w + PACK_LEN_SIZE + |p| > |s.buf|
    ensures PACK_LEN_SIZE + |p| <= |s.buf|
    ensures var data := WordBytes(|p|) + p; var t := Write(Marked(s, |p|), 0, data);
      t[..|data|] == Encode([p]) && t[s.r..s.w] == Encode(q) && (s.w + PACK_LEN_SIZE <= |t| ==> Word(t, s.w) == END_FLAG)
  {
    var data := WordBytes(|p|) + p;
    EncodeOne(p);
    WriteReads(Marked(s, |p|), 0, data);
    if !Skipping(s, Linear(q)) {
      AroundKeeps(s, data, s.r, |p|);
      if s.w + PACK_LEN_SIZE <= |s.buf| {
        AroundMarks(s, data, |p|);
      }
    }
  }

  lemma PushAround(s: Ring, v: View, p: Packet)
    requires Rep(s, v) && v.Linear? && Admits(s, |p|) && Room(s, v, |p|)
    requires s.w + PACK_LEN_SIZE + |p| > |s.buf|
    ensures Rep(Push(s, p), PushView(s, v, p))
  {
    PushCounts(s, v, p);
    PushTurns(s, v, p);
    TurnedBuffer(s, v.q, p);
  }

  /** With room, an admitted push appends exactly its packet and keeps every unread one. */
  lemma PushRefines(s: Ring, v: View, p: Packet)
    requires Rep(s, v) && Admits(s, |p|) && Room(s, v, |p|)
    ensures Rep(Push(s, p), PushView(s, v, p))
    ensures PushView(s, v, p).Contents() == v.Contents() + [p]
  {
    PushCounts(s, v, p);
    if v.Wrapped? {
      PushBehind(s, v, p);
    } else if s.w + PACK_LEN_SIZE + |p| <= |s.buf| {
      PushInLine(s, v, p);
    } else {
      PushAround(s, v, p);
    }
  }

  // ----- Room is exactly the absence of damage -----

  predicate Unread(s: Ring, v: View, i: nat) {
    match v
    case Linear(_) => s.r <= i < s.w
    case Wrapped(_, _, e) => s.r <= i < e || i < s.w
  }

  /** A wrap marker the reader has yet to meet. */
  predicate PendingMarker(s: Ring, v: View, i: nat) {
    v.Wrapped? && v.e + PACK_LEN_SIZE <= |s.buf| && v.e <= i < v.e + PACK_LEN_SIZE
  }

  /** The marker this push itself writes. */
  predicate NewMarker(s: Ring, len: nat, i: nat) {
    s.w + PACK_LEN_SIZE <= |s.buf| < s.w + len + PACK_LEN_SIZE && s.w <= i < s.w + PACK_LEN_SIZE
  }

  /** Byte `i` is written by the push and needed by the reader. */
  predicate Damages(s: Ring, v: View, len: nat, i: nat) {
    || (Slot(s, len) <= i < Slot(s, len) + PACK_LEN_SIZE + len &&
        (Unread(s, v, i) || PendingMarker(s, v, i) || NewMarker(s, len, i)))
    || (NewMarker(s, len, i) && (Unread(s, v, i) || PendingMarker(s, v, i)))
  }

  lemma EncodeEmpty(q: seq<Packet>)
    ensures Encode(q) == [] <==> q == []
  {
  }

  /** An admitted push of at least one byte damages something unread, or a wrap marker, exactly
      when it has no room. */
  lemma RoomIsExact(s: Ring, v: View, len: nat)
    requires Rep(s, v) && Admits(s, len) && 1 <= len < MAX_PACK_SIZE
    ensures Room(s, v, len) <==> !exists i: nat :: Damages(s, v, len, i)
  {
    if v.Linear? {
      EncodeEmpty(v.q);
    } else {
      EncodeEmpty(v.q1);
    }
    if !Room(s, v, len) {
      var witness0: nat := if v.Wrapped? && (Skipping(s, v) || s.w + PACK_LEN_SIZE + len > |s.buf|) then 0 else s.r;
      assert Damages(s, v, len, witness0);
    }
  }

  // ----- Reading -----

  /** The first packet of a run of packets. */
  lemma FrontOfRegion(buf: seq<byte>, from: nat, to: nat, q: seq<Packet>)
    requires q != []
    requires from <= to <= |buf| && buf[from..to] == Encode(q)
    ensures var next := from + PACK_LEN_SIZE + |q[0]|;
      next <= to && Word(buf, from) == |q[0]| && buf[from + PACK_LEN_SIZE..next] == q[0] &&
      buf[next..to] == Encode(q[1..])
  {
    ThreeParts(buf, from, to, WordBytes(|q[0]|), q[0], Encode(q[1..]));
    WordOfSlice(buf, from);
  }

  lemma ThreeParts(buf: seq<byte>, from: nat, to: nat, a: seq<byte>, b: seq<byte>, c: seq<byte>)
    requires from <= to <= |buf| && buf[from..to] == a + b + c
    ensures from + |a| + |b| <= to
    ensures buf[from..from + |a|] == a
    ensures buf[from + |a|..from + |a| + |b|] == b
    ensures buf[from + |a| + |b|..to] == c
  {
    var run := buf[from..to];
    assert a == run[..|a|] && b == run[|a|..|a| + |b|] && c == run[|a| + |b|..];
    SubSlice(buf, from, to, 0, |a|);
    SubSlice(buf, from, to, |a|, |a| + |b|);
    SubSlice(buf, from, to, |a| + |b|, to - from);
  }

  lemma SubSlice(buf: seq<byte>, from: nat, to: nat, i: nat, j: nat)
    requires from <= to <= |buf| && i <= j <= to - from
    ensures buf[from..to][i..j] == buf[from + i..from + j]
  {
    var run := buf[from..to];
    forall k | 0 <= k < j - i
      ensures run[i..j][k] == buf[from + i..from + j][k]
    {
      assert run[i..j][k] == run[i + k];
    }
  }

  lemma WordOfSlice(buf: seq<byte>, at: nat)
    requires at + 2 <= |buf|
    ensures Word(buf, at) == Word(buf[at..at + 2], 0)
  {
  }

  lemma NotEmpty(s: Ring, v: View)
    requires Rep(s, v)
    ensures s.rb < s.wb <==> v.Contents() != []
  {
    EncodeEmpty(v.Contents());
  }

  function PopView(v: View): View
    requires v.Contents() != []
  {
    match v
    case Linear(q) => Linear(q[1..])
    case Wrapped(q1, q2, e) => if q1 != [] then Wrapped(q1[1..], q2, e) else Linear(q2[1..])
  }

  lemma PopCounts(s: Ring, v: View)
    requires Rep(s, v) && v.Contents() != []
    ensures s.rb < s.wb
    ensures s.wb - (s.rb + PACK_LEN_SIZE + |v.Contents()[0]|) == |Encode(v.Contents()[1..])|
  {
  }

  lemma HeaderAtRun(s: Ring, end: nat, q: seq<Packet>)
    requires q != [] && s.r <= end <= |s.buf| && s.buf[s.r..end] == Encode(q)
    ensures NextHeader(s) == Some(s.r)
  {
    FrontOfRegion(s.buf, s.r, end, q);
  }

  lemma HeaderAtZero(s: Ring, q: seq<Packet>)
    requires q != [] && s.r <= |s.buf| && s.w <= |s.buf| && s.buf[..s.w] == Encode(q)
    requires s.r + PACK_LEN_SIZE > |s.buf| || Word(s.buf, s.r) == END_FLAG
    ensures NextHeader(s) == Some(0)
  {
    assert s.buf[0..s.w] == s.buf[..s.w];
    FrontOfRegion(s.buf, 0, s.w, q);
  }

  /** Where the oldest packet starts: at the reader, or at 0 after a skipped tail or a marker. */
  function HeadAt(s: Ring, v: View): nat {
    if v.Linear? || v.q1 != [] then s.r else 0
  }

  lemma HeaderOfSecondRun(s: Ring, q2: seq<Packet>, e: nat)
    requires Rep(s, Wrapped([], q2, e)) && q2 != []
    ensures NextHeader(s) == Some(0)
  {
    assert |s.buf[s.r..e]| == 0;
    assert s.r == e;
    HeaderAtZero(s, q2);
  }

  lemma HeaderFound(s: Ring, v: View)
    requires Rep(s, v) && v.Contents() != []
    ensures NextHeader(s) == Some(HeadAt(s, v))
  {
    match v
    case Linear(q) => HeaderAtRun(s, s.w, q);
    case Wrapped(q1, q2, e) =>
      if q1 != [] {
        HeaderAtRun(s, e, q1);
      } else {
        HeaderOfSecondRun(s, q2, e);
      }
  }

  /** Where the oldest packet lies: start of its run, end of its run, and the run. */
  lemma OldestRun(s: Ring, v: View) returns (h: nat, end: nat, q: seq<Packet>)
    requires Rep(s, v) && v.Contents() != []
    ensures NextHeader(s) == Some(h) && h <= end <= |s.buf|
    ensures q != [] && q[0] == v.Contents()[0] && h == HeadAt(s, v)
    ensures s.buf[h..end] == Encode(q)
    ensures v.Linear? ==> q == v.q && end == s.w
    ensures v.Wrapped? && v.q1 != [] ==> q == v.q1 && end == v.e
    ensures v.Wrapped? && v.q1 == [] ==> q == v.q2 && end == s.w
  {
    HeaderFound(s, v);
    if v.Linear? {
      h, end, q := s.r, s.w, v.q;
    } else if v.q1 != [] {
      h, end, q := s.r, v.e, v.q1;
    } else {
      h, end, q := 0, s.w, v.q2;
      assert s.buf[0..s.w] == s.buf[..s.w];
    }
  }

  /** The reader behind a packet of length `n` whose length word lies at `h`. */
  function Moved(s: Ring, h: nat, n: nat): Ring {
    s.(r := h + PACK_LEN_SIZE + n, rb := s.rb + PACK_LEN_SIZE + n)
  }

  lemma PopTakes(s: Ring, h: nat, n: nat)
    requires s.rb < s.wb && NextHeader(s) == Some(h) && h + PACK_LEN_SIZE + n <= |s.buf| && Word(s.buf, h) == n
    ensures Pop(s) == Some((s.buf[h + PACK_LEN_SIZE..h + PACK_LEN_SIZE + n], Moved(s, h, n)))
  {
  }

  /** A pop at the head of a run takes its first packet and leaves the rest of the run. */
  lemma PopAt(s: Ring, h: nat, end: nat, q: seq<Packet>)
    requires s.rb < s.wb && NextHeader(s) == Some(h) && h <= end <= |s.buf|
    requires q != [] && s.buf[h..end] == Encode(q)
    ensures Pop(s) == Some((q[0], Moved(s, h, |q[0]|)))
    ensures Moved(s, h, |q[0]|).r <= end && s.buf[Moved(s, h, |q[0]|).r..end] == Encode(q[1..])
  {
    FrontOfRegion(s.buf, h, end, q);
    PopTakes(s, h, |q[0]|);
  }

  lemma PopLinear(s: Ring, q: seq<Packet>)
    requires Rep(s, Linear(q)) && q != []
    ensures s.rb < s.wb && Pop(s) == Some((q[0], Moved(s, s.r, |q[0]|)))
    ensures Rep(Moved(s, s.r, |q[0]|), Linear(q[1..]))
  {
    PopCounts(s, Linear(q));
    HeaderAtRun(s, s.w, q);
    PopAt(s, s.r, s.w, q);
  }

  lemma TailOfBoth(q1: seq<Packet>, q2: seq<Packet>)
    requires q1 != []
    ensures (q1 + q2)[0] == q1[0] && (q1 + q2)[1..] == q1[1..] + q2
  {
  }

  /** The reader moves on in the first run; the rest of the layout stays. */
  lemma FirstRunShortened(s: Ring, q1: seq<Packet>, q2: seq<Packet>, e: nat, t: Ring)
    requires Rep(s, Wrapped(q1, q2, e)) && q1 != [] && t == Moved(s, s.r, |q1[0]|) && t.r <= e
    requires s.buf[t.r..e] == Encode(q1[1..]) && s.wb == t.rb + |Encode(q1[1..] + q2)|
    ensures Rep(t, Wrapped(q1[1..], q2, e))
  {
    EncodeEmpty(q1);
  }

  lemma PopFirstRun(s: Ring, q1: seq<Packet>, q2: seq<Packet>, e: nat)
    requires Rep(s, Wrapped(q1, q2, e)) && q1 != []
    ensures s.rb < s.wb && Pop(s) == Some((q1[0], Moved(s, s.r, |q1[0]|)))
    ensures Rep(Moved(s, s.r, |q1[0]|), Wrapped(q1[1..], q2, e))
  {
    TailOfBoth(q1, q2);
    PopCounts(s, Wrapped(q1, q2, e));
    HeaderAtRun(s, e, q1);
    PopAt(s, s.r, e, q1);
    FirstRunShortened(s, q1, q2, e, Moved(s, s.r, |q1[0]|));
  }

  lemma PopSecondRun(s: Ring, q2: seq<Packet>, e: nat)
    requires Rep(s, Wrapped([], q2, e)) && q2 != []
    ensures s.rb < s.wb && Pop(s) == Some((q2[0], Moved(s, 0, |q2[0]|)))
    ensures Rep(Moved(s, 0, |q2[0]|), Linear(q2[1..]))
  {
    assert [] + q2 == q2;
    assert s.buf[0..s.w] == s.buf[..s.w];
    HeaderOfSecondRun(s, q2, e);
    PopCounts(s, Wrapped([], q2, e));
    PopAt(s, 0, s.w, q2);
  }

  /** Where a pop leaves the reader; nothing else of the ring changes. */
  function AfterPop(s: Ring, v: View): Ring
    requires v.Contents() != []
  {
    Moved(s, HeadAt(s, v), |v.Contents()[0]|)
  }

  /** A pop returns the oldest packet byte for byte and leaves the rest queued. */
  lemma PopRefines(s: Ring, v: View)
    requires Rep(s, v) && v.Contents() != []
    ensures s.rb < s.wb && Pop(s) == Some((v.Contents()[0], AfterPop(s, v)))
    ensures Rep(AfterPop(s, v), PopView(v)) && PopView(v).Contents() == v.Contents()[1..]
  {
    match v
    case Linear(q) => PopLinear(s, q);
    case Wrapped(q1, q2, e) =>
      if q1 == [] {
        assert [] + q2 == q2;
        PopSecondRun(s, q2, e);
      } else {
        TailOfBoth(q1, q2);
        PopFirstRun(s, q1, q2, e);
      }
  }

  function PeekView(v: View): View {
    if v.Wrapped? && v.q1 == [] && v.q2 != [] then Linear(v.q2) else v
  }

  lemma PeekCrosses(s: Ring, q2: seq<Packet>, e: nat)
    requires Rep(s, Wrapped([], q2, e)) && q2 != []
    ensures Rep(s.(r := 0), Linear(q2))
  {
    assert [] + q2 == q2;
    assert s.buf[0..s.w] == s.buf[..s.w];
  }

  lemma PeekNonEmpty(s: Ring, v: View)
    requires Rep(s, v) && v.Contents() != []
    ensures NextHeader(s) == Some(HeadAt(s, v)) && Rep(s.(r := HeadAt(s, v)), PeekView(v))
    ensures Word(s.buf, NextHeader(s).value) == |v.Contents()[0]|
  {
    HeaderFound(s, v);
    var h, end, q := OldestRun(s, v);
    FrontOfRegion(s.buf, h, end, q);
    if PeekView(v) != v {
      PeekCrosses(s, v.q2, v.e);
    } else {
      assert s.(r := s.r) == s;
    }
  }

  lemma PeekKeepsContents(v: View)
    ensures PeekView(v).Contents() == v.Contents()
  {
  }

  /** A peek reports the length the next pop returns, even across a marker, and changes nothing
      a reader or writer can see. */
  lemma PeekRefines(s: Ring, v: View)
    requires Rep(s, v)
    ensures Peek(s).Some?
    ensures Peek(s).value.1 == if v.Contents() == [] then s else s.(r := HeadAt(s, v))
    ensures Peek(s).value.0 == if v.Contents() == [] then 0 else |v.Contents()[0]|
    ensures Rep(Peek(s).value.1, PeekView(v)) && PeekView(v).Contents() == v.Contents()
  {
    NotEmpty(s, v);
    PeekKeepsContents(v);
    if v.Contents() != [] {
      PeekNonEmpty(s, v);
    }
  }

  /** The counters hold the framed size of the queue, which never exceeds the buffer. */
  lemma Accounting(s: Ring, v: View)
    requires Rep(s, v)
    ensures s.wb - s.rb == |Encode(v.Contents())| <= |s.buf|
  {
    if v.Wrapped? {
      EncodeAppends(v.q1, v.q2);
      EncodeEmpty(v.q1);
    }
  }

  /** A buffer represents at most one queue, whatever layout one reads into it. */
  lemma {:induction false} RepIsFunctional(s: Ring, v1: View, v2: View)
    requires Rep(s, v1) && Rep(s, v2)
    ensures v1.Contents() == v2.Contents()
    decreases s.wb - s.rb
  {
    NotEmpty(s, v1);
    NotEmpty(s, v2);
    if v1.Contents() != [] {
      PopRefines(s, v1);
      PopRefines(s, v2);
      RepIsFunctional(Pop(s).value.1, PopView(v1), PopView(v2));
      SameHeadSameTail(v1.Contents(), v2.Contents());
    }
  }

  lemma SameHeadSameTail(a: seq<Packet>, b: seq<Packet>)
    requires a != [] && b != [] && a[0] == b[0] && a[1..] == b[1..]
    ensures a == b
  {
    assert a == [a[0]] + a[1..];
    assert b == [b[0]] + b[1..];
  }
}
