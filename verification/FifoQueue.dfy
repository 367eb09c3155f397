/** The class of src/commons/fifo_queue.h over a real byte array: pointers are offsets into
    `buffer`, and buf_end_ is its length. Every method is proved equal to its function in Ring,
    and to appending, removing or keeping packets under the regime its client has chosen. */
module FifoQueueClass {
  import opened Bytes
  import opened FixedLength
  import opened QueueRuns
  import opened Ring
  import opened Wrappers
  import ZeroCopy

  // ----- How a client uses the queue -----

  /** Free: the client looks for room itself. Bounded: lengths up to m, with headroom. Fixed: one
      length, under the queue's own test. */
  datatype Regime = Free | Bounded(m: nat) | Fixed(l: PacketLength)

  /** The invariant of each regime; `slot` is where the reader stands among slots of one length. */
  ghost predicate Represents(s: Ring, v: View, g: Regime, slot: nat) {
    match g
    case Free => Rep(s, v)
    case Bounded(m) => BoundedRep(s, v, m)
    case Fixed(l) => SlotRep(s, v, l, slot)
  }

  /** What the regime asks of a push. */
  ghost predicate Keeps(s: Ring, v: View, g: Regime, p: Packet) {
    match g
    case Free => Admits(s, |p|) ==> Room(s, v, |p|)
    case Bounded(m) => Headroom(|s.buf|, m, |Encode(v.Contents())|, |p|)
    case Fixed(l) => |p| == l
  }

  lemma FreshRepresents(s: Ring, g: Regime)
    requires s == Ring(s.buf, 0, 0, 0, 0)
    ensures Represents(s, Linear([]), g, 0)
  {
  }

  /** The queue after a push that is admitted or refused. */
  function AfterPush(s: Ring, v: View, p: Packet): View {
    if Admits(s, |p|) then PushView(s, v, p) else v
  }

  lemma RegimePush(s: Ring, v: View, g: Regime, slot: nat, p: Packet)
    requires Represents(s, v, g, slot) && Keeps(s, v, g, p)
    ensures InBounds(s, |p|)
    ensures Represents(Push(s, p), AfterPush(s, v, p), g, slot)
    ensures AfterPush(s, v, p).Contents() == if Admits(s, |p|) then v.Contents() + [p] else v.Contents()
    ensures g.Bounded? ==> Admits(s, |p|)
    ensures g.Fixed? ==> (Admits(s, |p|) <==> |v.Contents()| < SlotCapacity(|s.buf|, g.l))
  {
    PushCounts(s, v, p);
    match g
    case Free =>
      if Admits(s, |p|) {
        PushRefines(s, v, p);
      }
    case Bounded(m) =>
      HeadroomGivesRoom(s, v, m, |p|);
      BoundedPush(s, v, m, p);
    case Fixed(l) =>
      SlotAdmits(s, v, l, slot);
      if Admits(s, l) {
        SlotPush(s, v, l, slot, p);
      }
  }

  lemma RegimePop(s: Ring, v: View, g: Regime, slot: nat) returns (slot': nat)
    requires Represents(s, v, g, slot) && s.rb < s.wb
    ensures v.Contents() != [] && Pop(s).Some? && Pop(s).value.0 == v.Contents()[0]
    ensures Represents(Pop(s).value.1, PopView(v), g, slot') && PopView(v).Contents() == v.Contents()[1..]
  {
    NotEmpty(s, v);
    PopRefines(s, v);
    slot' := slot;
    match g
    case Free =>
    case Bounded(m) => BoundedPop(s, v, m);
    case Fixed(l) => slot' := SlotPop(s, v, l, slot);
  }

  lemma RegimePeek(s: Ring, v: View, g: Regime, slot: nat) returns (slot': nat)
    requires Represents(s, v, g, slot)
    ensures Peek(s).Some? && Peek(s).value.0 == if v.Contents() == [] then 0 else |v.Contents()[0]|
    ensures Represents(Peek(s).value.1, PeekView(v), g, slot') && PeekView(v).Contents() == v.Contents()
  {
    PeekRefines(s, v);
    slot' := slot;
    match g
    case Free =>
    case Bounded(m) => BoundedPeek(s, v, m);
    case Fixed(l) => slot' := SlotPeek(s, v, l, slot);
  }

  lemma SaneFits(s: Ring, len: nat)
    requires s.Sane()
    ensures InBounds(s, len)
  {
  }

  /** The push of a sane ring, which never leaves the buffer. */
  function AfterPushing(s: Ring, packet: seq<byte>): Ring
    requires s.Sane() && |packet| < MAX_PACK_SIZE
  {
    SaneFits(s, |packet|);
    Push(s, packet)
  }

  class FifoQueue {
    var buffer: array<byte>
    var readPos: nat
    var writePos: nat
    var readBytes: nat
    var writeBytes: nat
    ghost var view: View
    ghost var slot: nat
    ghost const regime: Regime

    ghost function State(): Ring
      reads this, buffer
    {
      Ring(buffer[..], readPos, writePos, readBytes, writeBytes)
    }

    ghost predicate Valid()
      reads this, buffer
    {
      Represents(State(), view, regime, slot)
    }

    ghost function Contents(): seq<Packet>
      reads this
    {
      view.Contents()
    }

    constructor (bufSize: nat, ghost regime: Regime)
      ensures fresh(buffer) && buffer.Length == bufSize && this.regime == regime
      ensures Valid() && view == Linear([]) && State() == Fresh(buffer[..])
    {
      buffer := new byte[bufSize];
      readPos, writePos := 0, 0;
      readBytes, writeBytes := 0, 0;
      view, slot := Linear([]), 0;
      this.regime := regime;
      new;
      FreshRepresents(State(), regime);
    }

    method Reset()
      modifies this
      ensures buffer == old(buffer) && State() == QueueRuns.Reset(old(State())) == Fresh(old(buffer[..]))
      ensures Valid() && view == Linear([])
    {
      readPos, writePos := 0, 0;
      readBytes, writeBytes := 0, 0;
      view, slot := Linear([]), 0;
      FreshRepresents(State(), regime);
    }

    /** memcpy into the buffer. */
    method Copy(at: nat, data: seq<byte>)
      requires at + |data| <= buffer.Length
      modifies buffer
      ensures buffer[..] == Write(old(buffer[..]), at, data)
    {
      forall i | 0 <= i < |data| {
        buffer[at + i] := data[i];
      }
    }

    method LoadWord(at: nat) returns (w: nat)
      requires at + PACK_LEN_SIZE <= buffer.Length
      ensures w == Word(buffer[..], at)
    {
      w := buffer[at] as int + 256 * buffer[at + 1] as int;
    }

    /** Skip a tail too short for a packet of length `len`, marking it if two bytes are left. */
    method WrapWriter(len: nat)
      requires writePos <= buffer.Length
      modifies this`writePos, buffer
      ensures buffer[..] == Marked(old(State()), len) && writePos == Slot(old(State()), len)
    {
      if writePos + PACK_LEN_SIZE > buffer.Length {
        writePos := 0;
      } else if writePos + len + PACK_LEN_SIZE > buffer.Length {
        Copy(writePos, WordBytes(END_FLAG));
        writePos := 0;
      }
    }

    method StoreFramed(packet: seq<byte>)
      requires |packet| < MAX_PACK_SIZE && writePos + PACK_LEN_SIZE + |packet| <= buffer.Length
      modifies this`writePos, buffer
      ensures buffer[..] == Write(old(buffer[..]), old(writePos), WordBytes(|packet|) + packet)
      ensures writePos == old(writePos) + PACK_LEN_SIZE + |packet|
    {
      WriteTwice(buffer[..], writePos, WordBytes(|packet|), packet);
      Copy(writePos, WordBytes(|packet|));
      writePos := writePos + PACK_LEN_SIZE;
      Copy(writePos, packet);
      writePos := writePos + |packet|;
    }

    // ----- The bodies that run under the lock, equal to the functions of Ring -----

    method PushLocked(packet: seq<byte>) returns (ok: bool)
      requires |packet| < MAX_PACK_SIZE && InBounds(State(), |packet|)
      modifies this`writePos, this`writeBytes, buffer
      ensures ok == Admits(old(State()), |packet|) && State() == Push(old(State()), packet)
    {
      var len := |packet|;
      if writeBytes + 2 * len + 2 * (PACK_LEN_SIZE - 1) > readBytes + buffer.Length {
        return false;
      }
      WrapWriter(len);
      StoreFramed(packet);
      writeBytes := writeBytes + len + PACK_LEN_SIZE;
      ok := true;
    }

    method PopLocked() returns (packet: seq<byte>)
      requires readBytes < writeBytes && Pop(State()).Some?
      modifies this`readPos, this`readBytes
      ensures Pop(old(State())) == Some((packet, State()))
    {
      if readPos + PACK_LEN_SIZE > buffer.Length {
        readPos := 0;
      }
      var len := LoadWord(readPos);
      if len == END_FLAG {
        readPos := 0;
        len := LoadWord(readPos);
      }
      readPos := readPos + PACK_LEN_SIZE;
      packet := buffer[readPos..readPos + len];
      assert packet == buffer[..][readPos..readPos + len];
      readPos := readPos + len;
      readBytes := readBytes + len + PACK_LEN_SIZE;
    }

    method PeekUnlocked() returns (len: nat)
      requires Peek(State()).Some?
      modifies this`readPos
      ensures Peek(old(State())) == Some((len, State()))
    {
      if readBytes >= writeBytes {
        return 0;
      }
      if readPos + PACK_LEN_SIZE > buffer.Length {
        readPos := 0;
      }
      len := LoadWord(readPos);
      if len == END_FLAG {
        readPos := 0;
        len := LoadWord(readPos);
      }
    }

    // ----- The same on a ring that represents a queue -----

    /** The queue is valid and the packet is what its regime asks for. */
    ghost predicate Ready(packet: seq<byte>)
      reads this, buffer
    {
      Valid() && Sendable(packet) && Keeps(State(), view, regime, packet)
    }

    /** Any packet is written as the ring's push says. Under the regime a refused packet changes
        nothing, and an admitted one is appended and nothing else changes; with headroom none is
        refused, and of one length none is, below the slot capacity. */
    method PushPacket(packet: seq<byte>) returns (ok: bool)
      requires State().Sane() && |packet| < MAX_PACK_SIZE
      modifies this, buffer
      ensures buffer == old(buffer) && State().Sane()
      ensures ok == Admits(old(State()), |packet|)
      ensures State() == AfterPushing(old(State()), packet)
      ensures old(Ready(packet)) ==> Valid() && view == AfterPush(old(State()), old(view), packet)
      ensures old(Ready(packet)) ==> Contents() == if ok then old(Contents()) + [packet] else old(Contents())
      ensures old(Ready(packet)) && regime.Bounded? ==> ok
      ensures old(Ready(packet)) && regime.Fixed? ==>
        (ok <==> |old(Contents())| < SlotCapacity(buffer.Length, regime.l))
    {
      ghost var s, v, ready := State(), view, Ready(packet);
      SaneFits(s, |packet|);
      ghost var pushed := Push(s, packet);
      ok := PushLocked(packet);
      assert State() == pushed;
      if ready {
        RegimePush(s, v, regime, slot, packet);
        view := AfterPush(s, v, packet);
        assert Represents(pushed, view, regime, slot);
      }
    }

    /** Enabled when there is something to read: the source waits until then. */
    method PopPacket() returns (packet: seq<byte>)
      requires Valid() && readBytes < writeBytes
      modifies this
      ensures buffer == old(buffer) && Valid()
      ensures Pop(old(State())) == Some((packet, State()))
      ensures old(Contents()) != [] && packet == old(Contents())[0] && Contents() == old(Contents())[1..]
      ensures view == PopView(old(view))
    {
      ghost var s, v := State(), view;
      ghost var slot' := RegimePop(s, v, regime, slot);
      ghost var popped := Pop(s).value;
      packet := PopLocked();
      view, slot := PopView(v), slot';
      assert (packet, State()) == popped;
    }

    method PeekNextPackLen() returns (len: nat)
      requires Valid()
      modifies this
      ensures buffer == old(buffer) && Valid() && Contents() == old(Contents())
      ensures Peek(old(State())) == Some((len, State())) && view == PeekView(old(view))
      ensures len == if Contents() == [] then 0 else |Contents()[0]|
    {
      ghost var slot' := RegimePeek(State(), view, regime, slot);
      len := PeekUnlocked();
      view, slot := PeekView(view), slot';
    }

    method TurnReceiver(pos: nat, len: nat) returns (next: nat)
      requires PACK_LEN_SIZE <= pos && PACK_LEN_SIZE <= buffer.Length
      modifies buffer
      ensures (buffer[..], next) == ZeroCopy.Turned(old(buffer[..]), pos, len)
    {
      next := pos;
      if next > buffer.Length {
        next := PACK_LEN_SIZE;
      } else if next + len > buffer.Length {
        Copy(next - PACK_LEN_SIZE, WordBytes(END_FLAG));
        next := PACK_LEN_SIZE;
      }
    }

    /** The caller's pointer comes back as `next`; write_pos_ stays where it is. */
    method Update(recvPos: nat, len: nat) returns (next: nat, ok: bool)
      requires PACK_LEN_SIZE <= recvPos <= buffer.Length && len < MAX_PACK_SIZE
      modifies this`writeBytes, buffer
      ensures (State(), next, ok) == ZeroCopy.Update(old(State()), recvPos, len)
    {
      Copy(recvPos - PACK_LEN_SIZE, WordBytes(len));
      if writeBytes + 2 * len + 2 * (PACK_LEN_SIZE - 1) > readBytes + buffer.Length {
        return recvPos, false;
      }
      next := TurnReceiver(recvPos + len + PACK_LEN_SIZE, len);
      writeBytes := writeBytes + len + PACK_LEN_SIZE;
      ok := true;
    }
  }

  /** Length word and payload written one after the other are one write. */
  lemma WriteTwice(buf: seq<byte>, at: nat, a: seq<byte>, b: seq<byte>)
    requires at + |a| + |b| <= |buf|
    ensures Write(Write(buf, at, a), at + |a|, b) == Write(buf, at, a + b)
  {
  }
}
