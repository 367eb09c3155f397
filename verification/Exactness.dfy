/** What a push does to the answers of later pops, with nothing assumed but a ring that represents
    a queue: exactly when all packets of a length survive, and exactly when an empty one does. */
module Exactness {
  import opened Bytes
  import opened Ring
  import opened Wrappers

  /** The next pops return these packets, one after the other. */
  ghost predicate PopsAs(s: Ring, xs: seq<seq<byte>>)
    decreases |xs|
  {
    xs == [] ||
    (s.rb < s.wb && Pop(s).Some? && Pop(s).value.0 == xs[0] && PopsAs(Pop(s).value.1, xs[1..]))
  }

  function Queued(v: View): seq<seq<byte>> {
    v.Contents()
  }

  lemma {:induction false} RepPopsAs(s: Ring, v: View)
    requires Rep(s, v)
    ensures PopsAs(s, Queued(v))
    decreases |v.Contents()|
  {
    if v.Contents() != [] {
      PopRefines(s, v);
      RepPopsAs(Pop(s).value.1, PopView(v));
    }
  }

  /** An admitted push stays inside the buffer. */
  lemma AdmittedFits(s: Ring, len: nat)
    requires s.Sane() && Admits(s, len)
    ensures InBounds(s, len) && PACK_LEN_SIZE + 2 * len <= |s.buf|
  {
  }

  // ----- Following the reader -----

  lemma PopsCons(s: Ring, x: seq<byte>, t: Ring, xs: seq<seq<byte>>)
    requires s.rb < s.wb && Pop(s) == Some((x, t))
    ensures PopsAs(s, [x] + xs) <==> PopsAs(t, xs)
  {
    assert ([x] + xs)[1..] == xs;
  }

  /** The reader behind a run of packets of `n` bytes in all. */
  function Behind(s: Ring, end: nat, n: nat): Ring {
    s.(r := end, rb := s.rb + n)
  }

  /** Through an intact run of packets, the reader comes to its end. */
  lemma {:induction false} DrainRun(s: Ring, end: nat, q: seq<Packet>, xs: seq<seq<byte>>)
    requires s.r <= end <= |s.buf| && s.buf[s.r..end] == Encode(q) && s.rb + |Encode(q)| <= s.wb
    ensures PopsAs(s, q + xs) <==> PopsAs(Behind(s, end, |Encode(q)|), xs)
    decreases |q|
  {
    if q == [] {
      assert q + xs == xs;
      assert Behind(s, end, 0) == s;
    } else {
      var x, t := FirstOfRun(s, end, q);
      DrainRun(t, end, q[1..], xs);
      PopsCons(s, x, t, q[1..] + xs);
      HeadFirst(q, xs);
    }
  }

  lemma HeadFirst(q: seq<Packet>, xs: seq<seq<byte>>)
    requires q != []
    ensures q + xs == [q[0]] + (q[1..] + xs)
  {
  }

  lemma FirstOfRun(s: Ring, end: nat, q: seq<Packet>) returns (x: seq<byte>, t: Ring)
    requires q != [] && s.r <= end <= |s.buf| && s.buf[s.r..end] == Encode(q) && s.rb + |Encode(q)| <= s.wb
    ensures s.rb < s.wb && Pop(s) == Some((x, t)) && x == q[0]
    ensures t.buf == s.buf && t.r <= end && t.buf[t.r..end] == Encode(q[1..])
    ensures t.rb + |Encode(q[1..])| == s.rb + |Encode(q)| && t.wb == s.wb
    ensures Behind(t, end, |Encode(q[1..])|) == Behind(s, end, |Encode(q)|)
  {
    HeaderAtRun(s, end, q);
    PopAt(s, s.r, end, q);
    x, t := Pop(s).value.0, Pop(s).value.1;
  }

  /** A reader sent to 0 finds an empty packet there exactly when the first word is 0. */
  lemma EmptyAtZero(s: Ring)
    requires s.rb < s.wb && NextHeader(s) == Some(0)
    ensures PopsAs(s, [[]]) <==> Word(s.buf, 0) == 0
  {
    var one: seq<seq<byte>> := [[]];
    assert one[1..] == [];
  }

  /** A reader that stands at, or is sent to, a zeroed first word does not get a packet. */
  lemma ZeroedHeader(s: Ring, xs: seq<seq<byte>>)
    requires NextHeader(s) == Some(0) && Word(s.buf, 0) == 0 && xs != [] && xs[0] != []
    ensures !PopsAs(s, xs)
  {
  }

  /** A reader caught between 0 and a marker behind the run `q` never returns an empty packet. */
  lemma {:induction false} NeverEmpty(s: Ring, h: nat, run: seq<Packet>, end: nat, q: seq<Packet>, xs: seq<seq<byte>>)
    requires end + PACK_LEN_SIZE <= |s.buf| && Word(s.buf, end) == END_FLAG
    requires q != [] && s.buf[0..end] == Encode(q)
    requires run != [] && NextHeader(s) == Some(h) && h <= end && s.buf[h..end] == Encode(run)
    requires [] in xs
    ensures !PopsAs(s, xs)
    decreases |xs|
  {
    if PopsAs(s, xs) {
      PopAt(s, h, end, run);
      var t := Pop(s).value.1;
      assert xs[0] == run[0] != [];
      if run[1..] != [] {
        HeaderAtRun(t, end, run[1..]);
        NeverEmpty(t, t.r, run[1..], end, q, xs[1..]);
      } else {
        assert t.buf[t.r..end] == [];
        NeverEmpty(t, 0, q, end, q, xs[1..]);
      }
    }
  }

  // ----- Empty packets -----

  /** Pushing an empty packet writes one zero word. */
  lemma EmptyPush(s: Ring)
    requires s.Sane() && Admits(s, 0)
    ensures InBounds(s, 0)
    ensures Push(s, []) ==
      Ring(Write(s.buf, Slot(s, 0), WordBytes(0)), s.r, Slot(s, 0) + PACK_LEN_SIZE, s.rb, s.wb + PACK_LEN_SIZE)
    ensures Word(Push(s, []).buf, Slot(s, 0)) == 0
  {
    assert WordBytes(0) + [] == WordBytes(0);
  }

  /** The zero word is read as a marker, and the first word of the buffer decides. */
  predicate ReadsBack(s: Ring) {
    s.w == 0 || s.w + PACK_LEN_SIZE > |s.buf| || Word(s.buf, 0) == 0
  }

  lemma EmptyBehind(s: Ring, q: seq<Packet>)
    requires Rep(s, Linear(q)) && Admits(s, 0) && s.w + PACK_LEN_SIZE <= |s.buf|
    ensures InBounds(s, 0)
    ensures PopsAs(Push(s, []), q + [[]]) <==> ReadsBack(s)
  {
    EmptyPush(s);
    var t := Push(s, []);
    WriteSpares(s.buf, s.w, WordBytes(0), s.r, s.w);
    DrainRun(t, s.w, q, [[]]);
    EmptyAtZero(Behind(t, s.w, |Encode(q)|));
  }

  lemma EmptyAround(s: Ring, q: seq<Packet>)
    requires Rep(s, Linear(q)) && Admits(s, 0) && s.w + PACK_LEN_SIZE > |s.buf|
    ensures InBounds(s, 0) && Room(s, Linear(q), 0)
    ensures PopsAs(Push(s, []), q + [[]])
  {
    EmptyPush(s);
    var t := Push(s, []);
    EncodeEmpty(q);
    if q != [] {
      WriteSpares(s.buf, 0, WordBytes(0), s.r, s.w);
    }
    assert t.buf[s.r..s.w] == Encode(q);
    DrainRun(t, s.w, q, [[]]);
    EmptyAtZero(Behind(t, s.w, |Encode(q)|));
  }

  /** Encoded packets take no byte or at least three. */
  lemma EncodeIsLong(q: seq<Packet>)
    ensures q == [] || |Encode(q)| > PACK_LEN_SIZE
  {
  }

  /** Wrapped with nothing at the start yet: the empty packet becomes the first one there. */
  lemma EmptyFirstAtStart(s: Ring, q1: seq<Packet>, e: nat)
    requires Rep(s, Wrapped(q1, [], e)) && Admits(s, 0)
    ensures InBounds(s, 0) && s.w == 0
    ensures PopsAs(Push(s, []), q1 + [[]]) <==> Room(s, Wrapped(q1, [], e), 0)
  {
    EmptyPush(s);
    var t := Push(s, []);
    EncodeEmpty(q1);
    assert q1 + [] == q1;
    if s.r == 0 {
      assert (q1 + [[]])[0] == q1[0];
      ZeroedHeader(t, q1 + [[]]);
    } else {
      BehindKeeps(s.buf, 0, WordBytes(0), s.r, e);
      DrainRun(t, e, q1, [[]]);
      EmptyAtZero(Behind(t, e, |Encode(q1)|));
    }
  }

  // With packets of the second run at the start, an empty packet is never read back: its zero word
  // sends the reader to those packets again.

  lemma SentToStart(s: Ring, end: nat, q: seq<Packet>, xs: seq<seq<byte>>)
    requires end + PACK_LEN_SIZE <= |s.buf| && Word(s.buf, end) == END_FLAG
    requires q != [] && s.buf[0..end] == Encode(q) && NextHeader(s) == Some(0) && [] in xs
    ensures !PopsAs(s, xs)
  {
    NeverEmpty(s, 0, q, end, q, xs);
  }

  /** A nonzero word at the reader that is not the next packet's length spoils the next pop. */
  lemma WrongLength(s: Ring, xs: seq<seq<byte>>)
    requires s.r + PACK_LEN_SIZE <= |s.buf| && Word(s.buf, s.r) != END_FLAG
    requires xs != [] && Word(s.buf, s.r) != |xs[0]|
    ensures !PopsAs(s, xs)
  {
  }

  /** A zero word that leaves the word at `r` as it was leaves everything behind it. */
  lemma ZeroWordBeside(buf: seq<byte>, at: nat, r: nat, e: nat)
    requires at <= r && at + PACK_LEN_SIZE <= |buf| && r + PACK_LEN_SIZE <= e <= |buf|
    requires Word(Write(buf, at, WordBytes(0)), r) == Word(buf, r) != 0
    ensures var t := Write(buf, at, WordBytes(0));
      t[r..e] == buf[r..e] && (e + PACK_LEN_SIZE <= |buf| ==> Word(t, e) == Word(buf, e))
  {
    var t := Write(buf, at, WordBytes(0));
    assert t[at] == t[at + 1] == 0;
    if at == r {
      assert false;
    } else if at + 1 == r {
      assert t[r] == buf[r] && t[r + 1..] == buf[r + 1..];
    } else {
      BehindKeeps(buf, at, WordBytes(0), r, e);
    }
  }

  lemma SecondRunStays(s: Ring, q1: seq<Packet>, q2: seq<Packet>, e: nat, buf: seq<byte>)
    requires Rep(s, Wrapped(q1, q2, e)) && s.w + PACK_LEN_SIZE <= |s.buf|
    requires buf == Write(s.buf, s.w, WordBytes(0))
    ensures buf[0..s.w] == Encode(q2) && Word(buf, s.w) == END_FLAG
  {
    WriteSpares(s.buf, s.w, WordBytes(0), 0, s.w);
    assert s.buf[0..s.w] == s.buf[..s.w];
  }

  /** With the reader's length word right, the zero word has spared the whole first run. */
  lemma FirstRunIntact(s: Ring, q1: seq<Packet>, q2: seq<Packet>, e: nat, buf: seq<byte>)
    requires Rep(s, Wrapped(q1, q2, e)) && q1 != [] && s.w + PACK_LEN_SIZE <= |s.buf|
    requires buf == Write(s.buf, s.w, WordBytes(0))
    requires s.r + PACK_LEN_SIZE <= |s.buf| && Word(buf, s.r) == |q1[0]|
    ensures s.r <= e && buf[s.r..e] == Encode(q1) && (e + PACK_LEN_SIZE <= |buf| ==> Word(buf, e) == END_FLAG)
  {
    FrontOfRegion(s.buf, s.r, e, q1);
    ZeroWordBeside(s.buf, s.w, s.r, e);
  }

  /** Behind an intact first run the reader is sent to 0, where the second run keeps it. */
  lemma AfterFirstRun(t: Ring, q1: seq<Packet>, q2: seq<Packet>, e: nat, end: nat)
    requires t.r <= e <= |t.buf| && t.buf[t.r..e] == Encode(q1) && t.rb + |Encode(q1)| <= t.wb
    requires e + PACK_LEN_SIZE <= |t.buf| ==> Word(t.buf, e) == END_FLAG
    requires end + PACK_LEN_SIZE <= |t.buf| && Word(t.buf, end) == END_FLAG
    requires q2 != [] && t.buf[0..end] == Encode(q2)
    ensures !PopsAs(t, q1 + (q2 + [[]]))
  {
    DrainRun(t, e, q1, q2 + [[]]);
    assert (q2 + [[]])[|q2|] == [];
    SentToStart(Behind(t, e, |Encode(q1)|), end, q2, q2 + [[]]);
  }

  lemma EmptyBesideRun(s: Ring, q1: seq<Packet>, q2: seq<Packet>, e: nat, t: Ring)
    requires Rep(s, Wrapped(q1, q2, e)) && q2 != [] && s.w + PACK_LEN_SIZE <= |s.buf|
    requires t == Ring(Write(s.buf, s.w, WordBytes(0)), s.r, t.w, s.rb, s.wb + PACK_LEN_SIZE)
    requires NextHeader(t) != Some(0)
    ensures !PopsAs(t, q1 + (q2 + [[]]))
  {
    EncodeEmpty(q1);
    assert q1 != [];
    if Word(t.buf, t.r) != |q1[0]| {
      WrongLength(t, q1 + (q2 + [[]]));
    } else {
      FirstRunIntact(s, q1, q2, e, t.buf);
      SecondRunStays(s, q1, q2, e, t.buf);
      EncodeAppends(q1, q2);
      AfterFirstRun(t, q1, q2, e, s.w);
    }
  }

  lemma EmptyBesideReader(s: Ring, q1: seq<Packet>, q2: seq<Packet>, e: nat)
    requires Rep(s, Wrapped(q1, q2, e)) && q2 != [] && Admits(s, 0) && s.w + PACK_LEN_SIZE <= |s.buf|
    ensures InBounds(s, 0)
    ensures !PopsAs(Push(s, []), (q1 + q2) + [[]])
  {
    EmptyPush(s);
    var t := Push(s, []);
    var xs: seq<seq<byte>> := (q1 + q2) + [[]];
    if NextHeader(t) == Some(0) {
      SecondRunStays(s, q1, q2, e, t.buf);
      assert xs[|q1 + q2|] == [];
      SentToStart(t, s.w, q2, xs);
    } else {
      EmptyBesideRun(s, q1, q2, e, t);
      assert xs == q1 + (q2 + [[]]);
    }
  }

  lemma EmptyWrapped(s: Ring, q1: seq<Packet>, q2: seq<Packet>, e: nat)
    requires Rep(s, Wrapped(q1, q2, e)) && Admits(s, 0)
    ensures InBounds(s, 0)
    ensures PopsAs(Push(s, []), (q1 + q2) + [[]]) <==> Room(s, Wrapped(q1, q2, e), 0) && ReadsBack(s)
  {
    AdmittedFits(s, 0);
    if q2 == [] {
      assert q1 + q2 == q1;
      EmptyFirstAtStart(s, q1, e);
    } else {
      EncodeAppends(q1, q2);
      EmptyBesideReader(s, q1, q2, e);
      assert s.buf[0..s.w] == s.buf[..s.w];
      FrontOfRegion(s.buf, 0, s.w, q2);
    }
  }

  /** After the push of an empty packet, the queue and then an empty packet come out. */
  ghost predicate EmptySurvives(s: Ring, v: View)
    requires s.Sane() && Admits(s, 0)
  {
    AdmittedFits(s, 0);
    PopsAs(Push(s, []), Queued(v) + [[]])
  }

  /** An admitted empty packet is read back, behind every packet queued before it, exactly when it
      has room and the first word of the buffer is 0 by then: because it goes there, or by chance. */
  lemma EmptyPacketIff(s: Ring, v: View)
    requires Rep(s, v) && Admits(s, 0)
    ensures EmptySurvives(s, v) <==> Room(s, v, 0) && ReadsBack(s)
  {
    match v
    case Linear(q) =>
      if s.w + PACK_LEN_SIZE <= |s.buf| {
        EmptyBehind(s, q);
      } else {
        EmptyAround(s, q);
      }
    case Wrapped(q1, q2, e) => EmptyWrapped(s, q1, q2, e);
  }

  // ----- Without room, some packet of the length is lost or spoils another -----

  function Constant(n: nat, b: byte): (p: seq<byte>)
    ensures |p| == n && forall i :: 0 <= i < n ==> p[i] == b
  {
    seq(n, _ => b)
  }

  /** The length of the packet that the next pop should return after a push of length `len`. */
  function NextLength(v: View, len: nat): nat {
    if v.Contents() == [] then len else |v.Contents()[0]|
  }

  /** A payload of this byte shows up wherever the reader takes it for something else: for part of
      a length word, or for a queued packet. */
  predicate Telling(v: View, len: nat, b: byte) {
    && b != 0 && b as int != NextLength(v, len) % 256 && b as int != NextLength(v, len) / 256
    && (v.Contents() == [] || v.Contents()[0][0] != b)
  }

  function PickByte(x: int, y: int, z: int): (b: byte)
    ensures b != 0 && b as int != x && b as int != y && b as int != z
  {
    if 1 !in [x, y, z] then 1 else if 2 !in [x, y, z] then 2 else if 3 !in [x, y, z] then 3 else 4
  }

  function TellingByte(v: View, len: nat): (b: byte)
    ensures Telling(v, len, b)
  {
    PickByte(NextLength(v, len) % 256, NextLength(v, len) / 256,
      if v.Contents() == [] then 0 else v.Contents()[0][0] as int)
  }

  /** The reader finds the new packet where another is due. */
  lemma GetsNew(s: Ring, h: nat, p: Packet, xs: seq<seq<byte>>)
    requires NextHeader(s) == Some(h) && h + PACK_LEN_SIZE + |p| <= |s.buf|
    requires s.buf[h..h + PACK_LEN_SIZE + |p|] == WordBytes(|p|) + p
    requires xs != [] && xs[0] != p
    ensures !PopsAs(s, xs)
  {
    EncodeOne(p);
    if s.rb < s.wb {
      PopAt(s, h, h + PACK_LEN_SIZE + |p|, [p]);
    }
  }

  /** The reader stands inside the new packet, and takes some of it for a length word. */
  lemma ReadsInside(s: Ring, at: nat, p: Packet, b: byte, n: nat, xs: seq<seq<byte>>)
    requires at < s.r < at + PACK_LEN_SIZE + |p| <= |s.buf| && s.r + PACK_LEN_SIZE <= |s.buf|
    requires s.buf[at..at + PACK_LEN_SIZE + |p|] == WordBytes(|p|) + p && p == Constant(|p|, b)
    requires b != 0 && b as int != n % 256 && b as int != n / 256
    requires xs != [] && |xs[0]| == n
    ensures !PopsAs(s, xs)
  {
    var frame := s.buf[at..at + PACK_LEN_SIZE + |p|];
    assert s.buf[s.r] == frame[s.r - at];
    if s.r == at + 1 {
      assert s.buf[s.r + 1] == frame[2] == b;
    } else {
      assert s.buf[s.r] == p[s.r - at - 2] == b;
    }
    WrongLength(s, xs);
  }

  /** What an admitted push leaves, whatever it writes over. */
  lemma PushFrame(s: Ring, p: Packet)
    requires s.Sane() && Admits(s, |p|)
    ensures InBounds(s, |p|) && Slot(s, |p|) + PACK_LEN_SIZE + |p| <= |s.buf|
    ensures var t := Push(s, p); var at := Slot(s, |p|);
      t.r == s.r && t.rb == s.rb && t.wb == s.wb + PACK_LEN_SIZE + |p| && |t.buf| == |s.buf| &&
      t.buf == Write(Marked(s, |p|), at, WordBytes(|p|) + p) &&
      t.buf[at..at + PACK_LEN_SIZE + |p|] == WordBytes(|p|) + p
  {
    WriteReads(Marked(s, |p|), Slot(s, |p|), WordBytes(|p|) + p);
  }

  lemma QueuedFirst(v: View, p: Packet)
    ensures var xs := Queued(v) + [p];
      xs != [] && |xs[0]| == NextLength(v, |p|) && (v.Contents() != [] ==> xs[0] == v.Contents()[0])
  {
  }

  lemma OtherThanFirst(v: View, p: Packet, b: byte)
    requires p == Constant(|p|, b) && Telling(v, |p|, b) && v.Contents() != []
    ensures p != v.Contents()[0]
  {
  }

  /** The new frame starts at the reader, who gets it out of turn. */
  lemma FrameAtReader(s: Ring, v: View, p: Packet, b: byte)
    requires Rep(s, v) && Admits(s, |p|) && p == Constant(|p|, b) && Telling(v, |p|, b)
    requires Slot(s, |p|) == s.r && v.Contents() != []
    ensures InBounds(s, |p|) && !PopsAs(Push(s, p), Queued(v) + [p])
  {
    PushFrame(s, p);
    QueuedFirst(v, p);
    OtherThanFirst(v, p, b);
    var t := Push(s, p);
    assert t.buf[s.r..s.r + PACK_LEN_SIZE + |p|][..2] == WordBytes(|p|);
    assert Word(t.buf, s.r) == |p|;
    GetsNew(t, s.r, p, Queued(v) + [p]);
  }

  /** The new frame starts before the reader and reaches it. */
  lemma FrameOverReader(s: Ring, v: View, p: Packet, b: byte)
    requires Rep(s, v) && Admits(s, |p|) && p == Constant(|p|, b) && Telling(v, |p|, b)
    requires Slot(s, |p|) < s.r < Slot(s, |p|) + PACK_LEN_SIZE + |p| && s.r + PACK_LEN_SIZE <= |s.buf|
    ensures InBounds(s, |p|) && !PopsAs(Push(s, p), Queued(v) + [p])
  {
    PushFrame(s, p);
    QueuedFirst(v, p);
    ReadsInside(Push(s, p), Slot(s, |p|), p, b, NextLength(v, |p|), Queued(v) + [p]);
  }

  lemma NoRoomLinear(s: Ring, q: seq<Packet>, p: Packet, b: byte)
    requires Rep(s, Linear(q)) && Admits(s, |p|) && !Room(s, Linear(q), |p|)
    requires p == Constant(|p|, b) && Telling(Linear(q), |p|, b)
    ensures InBounds(s, |p|) && !PopsAs(Push(s, p), Queued(Linear(q)) + [p])
  {
    EncodeEmpty(q);
    if s.r == 0 {
      FrameAtReader(s, Linear(q), p, b);
    } else {
      FrameOverReader(s, Linear(q), p, b);
    }
  }

  lemma NoRoomWrapped(s: Ring, q1: seq<Packet>, q2: seq<Packet>, e: nat, p: Packet, b: byte)
    requires Rep(s, Wrapped(q1, q2, e)) && Admits(s, |p|) && !Room(s, Wrapped(q1, q2, e), |p|)
    requires p == Constant(|p|, b) && Telling(Wrapped(q1, q2, e), |p|, b)
    ensures InBounds(s, |p|) && !PopsAs(Push(s, p), Queued(Wrapped(q1, q2, e)) + [p])
  {
    EncodeAppends(q1, q2);
    EncodeEmpty(q1);
    EncodeIsLong(q1);
    EncodeEmpty(q2);
    if s.w == s.r {
      FrameAtReader(s, Wrapped(q1, q2, e), p, b);
    } else {
      FrameOverReader(s, Wrapped(q1, q2, e), p, b);
    }
  }

  /** Without room, a packet of this length exists after which some pop goes wrong. */
  lemma NoRoomFails(s: Ring, v: View, len: nat) returns (p: Packet)
    requires Rep(s, v) && Admits(s, len) && 1 <= len < MAX_PACK_SIZE && !Room(s, v, len)
    ensures |p| == len && InBounds(s, len) && !PopsAs(Push(s, p), Queued(v) + [p])
  {
    var b := TellingByte(v, len);
    p := Constant(len, b);
    match v
    case Linear(q) => NoRoomLinear(s, q, p, b);
    case Wrapped(q1, q2, e) => NoRoomWrapped(s, q1, q2, e, p, b);
  }

  lemma RoomSuffices(s: Ring, v: View, p: Packet)
    requires Rep(s, v) && Admits(s, |p|) && Room(s, v, |p|)
    ensures InBounds(s, |p|) && PopsAs(Push(s, p), Queued(v) + [p])
  {
    PushRefines(s, v, p);
    RepPopsAs(Push(s, p), PushView(s, v, p));
  }

  /** After the push, the queue and then the packet come out. */
  ghost predicate Survives(s: Ring, v: View, p: Packet)
    requires s.Sane() && Admits(s, |p|)
  {
    AdmittedFits(s, |p|);
    PopsAs(Push(s, p), Queued(v) + [p])
  }

  /** An admitted push of a length is followed by the right pops for every payload exactly when it
      has room. */
  lemma RoomIff(s: Ring, v: View, len: nat)
    requires Rep(s, v) && Admits(s, len) && 1 <= len < MAX_PACK_SIZE
    ensures Room(s, v, len) <==> forall p: Packet | |p| == len :: Survives(s, v, p)
  {
    if Room(s, v, len) {
      forall p: Packet | |p| == len
        ensures Survives(s, v, p)
      {
        RoomSuffices(s, v, p);
      }
    } else {
      var p := NoRoomFails(s, v, len);
      assert !Survives(s, v, p);
    }
  }
}
