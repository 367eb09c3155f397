/** The zero-copy producer: the caller receives a payload straight into the buffer at `recv`, with
    room for the length word in front of it, and `Update` makes it a packet. */
module ZeroCopy {
  import opened Bytes
  import opened Ring
  import opened QueueRuns
  import opened FixedLength
  import opened Wrappers

  /** The caller's pointer behind a payload, and the buffer: the pointer wraps eagerly, with a marker
      where one fits. */
  function Turned(buf: seq<byte>, next: nat, len: nat): (t: (seq<byte>, nat))
    requires PACK_LEN_SIZE <= next && PACK_LEN_SIZE <= |buf|
    ensures |t.0| == |buf| && PACK_LEN_SIZE <= t.1 <= |buf|
  {
    if next > |buf| then (buf, PACK_LEN_SIZE)
    else if next + len > |buf| then (Write(buf, next - PACK_LEN_SIZE, WordBytes(END_FLAG)), PACK_LEN_SIZE)
    else (buf, next)
  }

  /** The length word goes in before the admission test. */
  function Update(s: Ring, recv: nat, len: nat): (t: (Ring, nat, bool))
    requires PACK_LEN_SIZE <= recv <= |s.buf| && len < MAX_PACK_SIZE
    ensures |t.0.buf| == |s.buf| && PACK_LEN_SIZE <= t.1 <= |s.buf|
  {
    var headed := s.(buf := Write(s.buf, recv - PACK_LEN_SIZE, WordBytes(len)));
    if !Admits(s, len) then (headed, recv, false)
    else
      var t := Turned(headed.buf, recv + len + PACK_LEN_SIZE, len);
      (headed.(buf := t.0, wb := s.wb + len + PACK_LEN_SIZE), t.1, true)
  }

  /** The ring as the producer sees it: its next header lies at recv - 2. */
  function At(s: Ring, recv: nat): Ring
    requires recv >= PACK_LEN_SIZE
  {
    s.(w := recv - PACK_LEN_SIZE)
  }

  /** The header and payload window at `recv` lies in the buffer and holds nothing unread. */
  predicate WindowFree(s: Ring, recv: nat, v: View, l: nat) {
    recv >= PACK_LEN_SIZE && recv + l <= |s.buf| &&
    forall i :: recv - PACK_LEN_SIZE <= i < recv + l ==>
      !Unread(At(s, recv), v, i) && !PendingMarker(At(s, recv), v, i)
  }

  // ----- Runs -----

  /** A receive and Update, or a call on the consumer's side. Reset is left out: it does not reach
      the caller's pointer. */
  function ZStep(s: Ring, recv: nat, op: Op): (o: Option<(Ring, nat, Obs)>)
    requires PACK_LEN_SIZE <= recv <= |s.buf| && !op.ResetOp?
    ensures o.Some? ==> |o.value.0.buf| == |s.buf| && PACK_LEN_SIZE <= o.value.1 <= |s.buf|
  {
    match op
    case PushOp(p) =>
      if recv + |p| > |s.buf| then None
      else
        var t := Update(s.(buf := Write(s.buf, recv, p)), recv, |p|);
        Some((t.0, t.1, if t.2 then Accepted else Rejected))
    case _ =>
      match Step(s, op)
      case None => None
      case Some(x) => if |x.0.buf| == |s.buf| then Some((x.0, recv, x.1)) else None
  }

  predicate NoReset(ops: seq<Op>) {
    forall i :: 0 <= i < |ops| ==> !ops[i].ResetOp?
  }

  function ZRun(s: Ring, recv: nat, ops: seq<Op>): (r: Option<(Ring, nat, seq<Obs>)>)
    requires PACK_LEN_SIZE <= recv <= |s.buf| && NoReset(ops)
    ensures r.Some? ==> |r.value.0.buf| == |s.buf| && PACK_LEN_SIZE <= r.value.1 <= |s.buf| && |r.value.2| == |ops|
    decreases |ops|
  {
    if ops == [] then Some((s, recv, []))
    else
      match ZStep(s, recv, ops[0])
      case None => None
      case Some(x) =>
        match ZRun(x.0, x.1, ops[1..])
        case None => None
        case Some(y) => Some((y.0, y.1, [x.2] + y.2))
  }

  /** The run did what an ideal queue of that capacity does, and left the window free. */
  ghost predicate ZAgrees(r: Option<(Ring, nat, seq<Obs>)>, ideal: (seq<Packet>, seq<Obs>), l: nat) {
    r.Some? && r.value.2 == ideal.1 &&
    exists v :: WindowFree(r.value.0, r.value.1, v, l) &&
      Rep(At(r.value.0, r.value.1), v) && v.Contents() == ideal.0
  }

  // ----- The invariant: a spare slot -----

  ghost predicate ZRep(s: Ring, recv: nat, v: View, l: nat, k: nat) {
    && PACK_LEN_SIZE <= recv && recv + l <= |s.buf| && |s.buf| % Framed(l) < l
    && SlotRep(At(s, recv), v, l, k)
    && |v.Contents()| <= SlotCapacity(|s.buf|, l)
  }

  lemma SpareRoom(s: Ring, recv: nat, v: View, l: nat, k: nat)
    requires ZRep(s, recv, v, l, k)
    ensures Room(At(s, recv), v, l) && Rep(At(s, recv), v)
  {
    if v.Wrapped? {
      var f := Framed(l);
      WrapsAtLastSlot(|s.buf|, l, k + |v.q1|);
      Slots(|s.buf|, l);
      Scale(|v.q2| + 1, k, f);
      Distribute(|v.q2|, 1, f);
    }
  }

  lemma SpareSlot(s: Ring, recv: nat, v: View, l: nat, k: nat)
    requires ZRep(s, recv, v, l, k)
    ensures WindowFree(s, recv, v, l)
  {
    SpareRoom(s, recv, v, l, k);
    if v.Wrapped? {
      EncodeEmpty(v.q1);
    }
  }

  lemma WindowBehindLinear(t: Ring, q: seq<Packet>, at: nat, data: seq<byte>)
    requires Rep(t, Linear(q)) && t.w <= at && at + |data| <= |t.buf|
    ensures Rep(t.(buf := Write(t.buf, at, data)), Linear(q))
  {
    WriteSpares(t.buf, at, data, t.r, t.w);
  }

  lemma WindowBetweenRuns(t: Ring, q1: seq<Packet>, q2: seq<Packet>, e: nat, at: nat, data: seq<byte>)
    requires Rep(t, Wrapped(q1, q2, e)) && t.w <= at && at + |data| <= |t.buf|
    requires at + |data| <= t.r || Skipping(t, Wrapped(q1, q2, e))
    ensures Rep(t.(buf := Write(t.buf, at, data)), Wrapped(q1, q2, e))
  {
    var buf := Write(t.buf, at, data);
    WriteSpares(t.buf, at, data, 0, t.w);
    assert buf[..t.w] == buf[0..t.w] == t.buf[..t.w];
    if Skipping(t, Wrapped(q1, q2, e)) {
      EncodeEmpty(q1);
    } else {
      BehindKeeps(t.buf, at, data, t.r, e);
    }
  }

  /** Bytes of the header and payload window of a ring. */
  predicate InWindow(t: Ring, l: nat, at: nat, data: seq<byte>) {
    t.w <= at && at + |data| <= t.w + Framed(l) <= |t.buf|
  }

  /** Whatever the caller writes into its window, the queue stays as it is. */
  lemma WindowWriteKeeps(t: Ring, v: View, l: nat, at: nat, data: seq<byte>)
    requires Rep(t, v) && Room(t, v, l) && InWindow(t, l, at, data)
    ensures Rep(t.(buf := Write(t.buf, at, data)), v)
  {
    match v
    case Linear(q) => WindowBehindLinear(t, q, at, data);
    case Wrapped(q1, q2, e) => WindowBetweenRuns(t, q1, q2, e, at, data);
  }

  lemma HeaderAndPayload(buf: seq<byte>, recv: nat, p: seq<byte>)
    requires PACK_LEN_SIZE <= recv && recv + |p| <= |buf| && |p| < MAX_PACK_SIZE
    ensures Write(Write(buf, recv, p), recv - PACK_LEN_SIZE, WordBytes(|p|)) ==
      Write(buf, recv - PACK_LEN_SIZE, WordBytes(|p|) + p)
  {
  }

  /** Before its pointer wraps, an accepted Update is a push. */
  lemma UpdateIsPush(s: Ring, recv: nat, p: Packet)
    requires PACK_LEN_SIZE <= recv && recv + |p| <= |s.buf| && Admits(s, |p|)
    ensures var t := Update(s.(buf := Write(s.buf, recv, p)), recv, |p|);
      var pushed := Push(At(s, recv), p);
      t.2 && pushed.w == recv + |p| &&
      (if pushed.w + PACK_LEN_SIZE + |p| <= |s.buf|
       then At(t.0, t.1) == pushed
       else t.1 == PACK_LEN_SIZE && At(t.0, t.1) == pushed.(buf := Marked(pushed, |p|), w := 0))
  {
    HeaderAndPayload(s.buf, recv, p);
    assert Slot(At(s, recv), |p|) == recv - PACK_LEN_SIZE;
  }

  /** Turning at the end of the buffer: the queue becomes the first run, an empty second run
      starts at 0. */
  lemma TurnAround(s: Ring, q: seq<Packet>, len: nat)
    requires Rep(s, Linear(q)) && s.w > 0 && s.w + PACK_LEN_SIZE + len > |s.buf|
    ensures Rep(s.(buf := Marked(s, len), w := 0), Wrapped(q, [], s.w))
  {
    assert q + [] == q;
    if s.w + PACK_LEN_SIZE <= |s.buf| {
      WriteSpares(s.buf, s.w, WordBytes(END_FLAG), s.r, s.w);
    }
  }

  lemma ZAccept(s: Ring, recv: nat, v: View, l: nat, k: nat, p: Packet) returns (v': View)
    requires ZRep(s, recv, v, l, k) && |p| == l && Admits(s, l)
    ensures var t := Update(s.(buf := Write(s.buf, recv, p)), recv, l);
      t.2 && ZRep(t.0, t.1, v', l, k) && v'.Contents() == v.Contents() + [p]
  {
    var ring := At(s, recv);
    SlotAdmits(ring, v, l, k);
    SlotPush(ring, v, l, k, p);
    UpdateIsPush(s, recv, p);
    v' := PushView(ring, v, p);
    var pushed := Push(ring, p);
    if pushed.w + Framed(l) > |s.buf| {
      if v.Wrapped? {
        FullWindow(s, recv, v, l, k);
        assert false;
      }
      TurnAround(pushed, v'.q, l);
      assert v'.q + [] == v'.q;
      v' := Wrapped(v'.q, [], pushed.w);
    }
  }

  /** In the wrapped shape an accepted packet never reaches the end of the buffer. */
  lemma FullWindow(s: Ring, recv: nat, v: View, l: nat, k: nat)
    requires ZRep(s, recv, v, l, k) && v.Wrapped? && |v.Contents()| < SlotCapacity(|s.buf|, l)
    ensures recv + l + Framed(l) <= |s.buf|
  {
    var f := Framed(l);
    WrapsAtLastSlot(|s.buf|, l, k + |v.q1|);
    Slots(|s.buf|, l);
    Scale(|v.q2| + 2, k, f);
    Distribute(|v.q2|, 2, f);
  }

  /** A refused Update has written the length word and, before it, the caller the payload. */
  lemma RefusedUpdate(s: Ring, recv: nat, p: Packet)
    requires PACK_LEN_SIZE <= recv && recv + |p| <= |s.buf| && !Admits(s, |p|)
    ensures Update(s.(buf := Write(s.buf, recv, p)), recv, |p|) ==
      (s.(buf := Write(s.buf, recv - PACK_LEN_SIZE, WordBytes(|p|) + p)), recv, false)
  {
    HeaderAndPayload(s.buf, recv, p);
  }

  lemma WindowFrame(s: Ring, recv: nat, v: View, l: nat, data: seq<byte>)
    requires recv >= PACK_LEN_SIZE && Rep(At(s, recv), v) && Room(At(s, recv), v, l) && recv + l <= |s.buf|
    requires |data| == Framed(l)
    ensures Rep(At(s.(buf := Write(s.buf, recv - PACK_LEN_SIZE, data)), recv), v)
  {
    var t := At(s, recv);
    WindowWriteKeeps(t, v, l, t.w, data);
    assert At(s.(buf := Write(s.buf, t.w, data)), recv) == t.(buf := Write(t.buf, t.w, data));
  }

  lemma WindowIsSpare(s: Ring, recv: nat, v: View, l: nat, k: nat, data: seq<byte>)
    requires ZRep(s, recv, v, l, k) && |data| == Framed(l)
    ensures ZRep(s.(buf := Write(s.buf, recv - PACK_LEN_SIZE, data)), recv, v, l, k)
  {
    SpareRoom(s, recv, v, l, k);
    WindowFrame(s, recv, v, l, data);
  }

  /** A refused Update has written into the free window only. */
  lemma ZReject(s: Ring, recv: nat, v: View, l: nat, k: nat, p: Packet)
    requires ZRep(s, recv, v, l, k) && |p| == l && !Admits(s, l)
    ensures var t := Update(s.(buf := Write(s.buf, recv, p)), recv, l);
      !t.2 && t.1 == recv && ZRep(t.0, recv, v, l, k)
  {
    RefusedUpdate(s, recv, p);
    WindowIsSpare(s, recv, v, l, k, WordBytes(l) + p);
  }

  lemma ZReceive(s: Ring, recv: nat, v: View, l: nat, k: nat, p: Packet) returns (v': View)
    requires ZRep(s, recv, v, l, k) && |p| == l
    ensures ZStep(s, recv, PushOp(p)).Some?
    ensures var x := ZStep(s, recv, PushOp(p)).value;
      ZRep(x.0, x.1, v', l, k) &&
      (v'.Contents(), x.2) == IdealStep(AtMost(SlotCapacity(|s.buf|, l)), v.Contents(), PushOp(p))
  {
    SlotAdmits(At(s, recv), v, l, k);
    v' := v;
    if Admits(s, l) {
      v' := ZAccept(s, recv, v, l, k, p);
    } else {
      ZReject(s, recv, v, l, k, p);
    }
  }

  /** The consumer's side neither reads nor moves the write position. */
  lemma ConsumerIgnoresWriter(s: Ring, recv: nat, op: Op)
    requires PACK_LEN_SIZE <= recv <= |s.buf| && (op.PopOp? || op.PeekOp?)
    requires Step(At(s, recv), op).Some?
    ensures var x := Step(At(s, recv), op).value;
      var z := ZStep(s, recv, op);
      z == Some((x.0.(w := s.w), recv, x.1)) && At(z.value.0, recv) == x.0
  {
    assert NextHeader(At(s, recv)) == NextHeader(s);
  }

  lemma ZConsume(s: Ring, recv: nat, v: View, l: nat, k: nat, op: Op) returns (v': View, k': nat)
    requires ZRep(s, recv, v, l, k) && (op.PopOp? || op.PeekOp?)
    ensures ZStep(s, recv, op).Some?
    ensures var x := ZStep(s, recv, op).value;
      ZRep(x.0, x.1, v', l, k') &&
      (v'.Contents(), x.2) == IdealStep(AtMost(SlotCapacity(|s.buf|, l)), v.Contents(), op)
  {
    v', k' := SlotStep(At(s, recv), v, l, k, op);
    ConsumerIgnoresWriter(s, recv, op);
    IdealShrinks(AtMost(SlotCapacity(|s.buf|, l)), v.Contents(), op);
  }

  lemma IdealShrinks(cap: Capacity, q: seq<Packet>, op: Op)
    requires op.PopOp? || op.PeekOp?
    ensures |IdealStep(cap, q, op).0| <= |q|
  {
  }

  lemma ZStepRefines(s: Ring, recv: nat, v: View, l: nat, k: nat, op: Op) returns (v': View, k': nat)
    requires ZRep(s, recv, v, l, k) && !op.ResetOp? && (op.PushOp? ==> |op.p| == l)
    ensures ZStep(s, recv, op).Some?
    ensures var x := ZStep(s, recv, op).value;
      ZRep(x.0, x.1, v', l, k') &&
      (v'.Contents(), x.2) == IdealStep(AtMost(SlotCapacity(|s.buf|, l)), v.Contents(), op)
  {
    if op.PushOp? {
      v' := ZReceive(s, recv, v, l, k, op.p);
      k' := k;
    } else {
      v', k' := ZConsume(s, recv, v, l, k, op);
    }
  }

  // ----- What the producer writes without the lock -----

  /** What a call of the consumer makes of the ring: only the layout matters. */
  function AfterCall(t: Ring, v: View, op: Op): Ring {
    if v.Contents() == [] then t else if op.PopOp? then AfterPop(t, v) else t.(r := HeadAt(t, v))
  }

  lemma ConsumerStep(t: Ring, v: View, op: Op)
    requires Rep(t, v) && (op.PopOp? || op.PeekOp?)
    ensures Step(t, op) == Some((AfterCall(t, v, op), IdealStep(Unbounded, v.Contents(), op).1))
  {
    NotEmpty(t, v);
    if op.PopOp? {
      if v.Contents() != [] {
        PopRefines(t, v);
      }
    } else {
      PeekRefines(t, v);
    }
  }

  /** A write into the window and a call of the consumer commute: in either order they give the
      same answer and leave the same ring. */
  predicate Commute(s: Ring, recv: nat, at: nat, data: seq<byte>, op: Op)
    requires PACK_LEN_SIZE <= recv <= |s.buf| && at + |data| <= |s.buf| && !op.ResetOp?
  {
    var first, second := ZStep(s.(buf := Write(s.buf, at, data)), recv, op), ZStep(s, recv, op);
    first.Some? && second.Some? &&
    first.value == (second.value.0.(buf := Write(second.value.0.buf, at, data)), second.value.1, second.value.2)
  }

  lemma CallsCommute(s: Ring, recv: nat, v: View, at: nat, data: seq<byte>, op: Op, obs: Obs)
    requires PACK_LEN_SIZE <= recv <= |s.buf| && at + |data| <= |s.buf| && (op.PopOp? || op.PeekOp?)
    requires Step(At(s, recv), op) == Some((AfterCall(At(s, recv), v, op), obs))
    requires var u := At(s.(buf := Write(s.buf, at, data)), recv); Step(u, op) == Some((AfterCall(u, v, op), obs))
    ensures Commute(s, recv, at, data, op)
  {
    var u := s.(buf := Write(s.buf, at, data));
    ConsumerIgnoresWriter(s, recv, op);
    ConsumerIgnoresWriter(u, recv, op);
    assert AfterCall(At(u, recv), v, op) == AfterCall(At(s, recv), v, op).(buf := u.buf);
  }

  /** What the producer writes outside the lock, the payload it receives and the length word of the
      next Update, falls into the window, so it may come before or after any call of the consumer. */
  lemma WindowWritesCommute(s: Ring, recv: nat, v: View, l: nat, k: nat, at: nat, data: seq<byte>, op: Op)
    requires ZRep(s, recv, v, l, k) && InWindow(At(s, recv), l, at, data) && (op.PopOp? || op.PeekOp?)
    ensures Commute(s, recv, at, data, op)
  {
    var t, written := At(s, recv), Write(s.buf, at, data);
    SpareRoom(s, recv, v, l, k);
    WindowWriteKeeps(t, v, l, at, data);
    assert t.(buf := written) == At(s.(buf := written), recv);
    ConsumerStep(t, v, op);
    ConsumerStep(t.(buf := written), v, op);
    CallsCommute(s, recv, v, at, data, op, IdealStep(Unbounded, v.Contents(), op).1);
  }

  lemma {:induction false} ZRunRefines(s: Ring, recv: nat, v: View, l: nat, k: nat, ops: seq<Op>)
    requires ZRep(s, recv, v, l, k) && NoReset(ops) && AllOfLength(ops, l)
    ensures ZAgrees(ZRun(s, recv, ops), IdealRun(AtMost(SlotCapacity(|s.buf|, l)), v.Contents(), ops), l)
    decreases |ops|
  {
    if ops == [] {
      SpareRoom(s, recv, v, l, k);
      SpareSlot(s, recv, v, l, k);
    } else {
      assert !ops[0].ResetOp?;
      var v', k' := ZStepRefines(s, recv, v, l, k, ops[0]);
      var x := ZStep(s, recv, ops[0]).value;
      ZRunRefines(x.0, x.1, v', l, k', ops[1..]);
    }
  }

  /** When the tail after the last slot cannot hold a payload, every run of Update, pop and peek
      is a run of a bounded queue, and the receive window is free after every call. */
  lemma ZeroCopyRefinement(buf: seq<byte>, l: nat, ops: seq<Op>)
    requires 1 <= l < MAX_PACK_SIZE && Framed(l) <= |buf| && |buf| % Framed(l) < l
    requires NoReset(ops) && AllOfLength(ops, l)
    ensures ZAgrees(ZRun(Fresh(buf), PACK_LEN_SIZE, ops), IdealRun(AtMost(SlotCapacity(|buf|, l)), [], ops), l)
  {
    ZRunRefines(Fresh(buf), PACK_LEN_SIZE, Linear([]), l, 0, ops);
  }

  // ----- The condition on the buffer size is exact -----

  function Repeat(p: Packet, n: nat): (ops: seq<Op>)
    ensures |ops| == n
  {
    seq(n, _ => PushOp(p))
  }

  /** `j` of the `k` slots have been filled and nothing was read. */
  predicate Filling(s: Ring, recv: nat, l: nat, k: nat, j: nat) {
    && l >= 1 && j < k == |s.buf| / Framed(l) && |s.buf| % Framed(l) >= l
    && s.r == s.rb == 0 && s.wb == j * Framed(l) && recv == j * Framed(l) + PACK_LEN_SIZE <= |s.buf|
  }

  /** All slots have been filled, and the pointer is back at the first. */
  predicate Full(s: Ring, recv: nat, l: nat, k: nat) {
    && 0 < k == |s.buf| / Framed(l) && |s.buf| % Framed(l) >= l
    && s.r == s.rb == 0 && s.wb == k * Framed(l) && recv == PACK_LEN_SIZE
  }

  lemma FillStep(s: Ring, recv: nat, p: Packet, k: nat, j: nat)
    requires Filling(s, recv, |p|, k, j)
    ensures ZStep(s, recv, PushOp(p)).Some?
    ensures var x := ZStep(s, recv, PushOp(p)).value;
      if j + 1 < k then Filling(x.0, x.1, |p|, k, j + 1) else Full(x.0, x.1, |p|, k)
  {
    var f := Framed(|p|);
    Slots(|s.buf|, |p|);
    AdmissionCounts(|s.buf|, |p|, j);
    Distribute(j, 1, f);
    Scale(j + 1, k, f);
    if j + 1 < k {
      Scale(j + 2, k, f);
      Distribute(j, 2, f);
    }
  }

  predicate LastIs(r: Option<(Ring, nat, seq<Obs>)>, n: nat, x: Obs) {
    r.Some? && n > 0 && |r.value.2| == n && r.value.2[n - 1] == x
  }

  lemma {:induction false} IdealFill(cap: nat, q: seq<Packet>, p: Packet, n: nat)
    requires |q| + n <= cap
    ensures var run := IdealRun(AtMost(cap), q, Repeat(p, n));
      |run.1| == n && |run.0| == |q| + n && forall i :: 0 <= i < |run.0| ==> run.0[i] == if i < |q| then q[i] else p
    decreases n
  {
    if n != 0 {
      assert Repeat(p, n)[1..] == Repeat(p, n - 1);
      IdealFill(cap, q + [p], p, n - 1);
    }
  }

  lemma {:induction false} IdealAppends(cap: Capacity, q: seq<Packet>, a: seq<Op>, b: seq<Op>)
    ensures IdealRun(cap, q, a + b).1 == IdealRun(cap, q, a).1 + IdealRun(cap, IdealRun(cap, q, a).0, b).1
    decreases |a|
  {
    if a == [] {
      assert a + b == b;
    } else {
      var first, tail := a[0], a[1..];
      assert a == [first] + tail && a + b == [first] + (tail + b);
      IdealCons(cap, q, first, tail);
      IdealAppends(cap, IdealStep(cap, q, first).0, tail, b);
      IdealCons(cap, q, first, tail + b);
    }
  }

  lemma LateIsRefused(s: Ring, recv: nat, p: Packet, k: nat)
    requires Full(s, recv, |p|, k)
    ensures s.wb > 0 && Framed(|p|) <= |s.buf|
    ensures ZStep(s, recv, PushOp(p)) == Some((s.(buf := Write(s.buf, 0, WordBytes(|p|) + p)), recv, Rejected))
  {
    Slots(|s.buf|, |p|);
    Scale(1, k, Framed(|p|));
    AdmissionCounts(|s.buf|, |p|, k);
    RefusedUpdate(s, recv, p);
  }

  lemma LateIsPopped(s: Ring, recv: nat, p: Packet)
    requires s.r == 0 && s.rb < s.wb && Framed(|p|) <= |s.buf| && s.buf[0..Framed(|p|)] == WordBytes(|p|) + p
    requires PACK_LEN_SIZE <= recv <= |s.buf|
    ensures ZStep(s, recv, PopOp).Some? && ZStep(s, recv, PopOp).value.2 == Popped(p)
  {
    EncodeOne(p);
    HeaderAtRun(s, Framed(|p|), [p]);
    PopAt(s, 0, Framed(|p|), [p]);
    PopKeepsBuffer(s);
  }

  /** With every slot full, one more payload lands on the oldest packet, though it is refused. */
  lemma RefusedOverwrites(s: Ring, recv: nat, p: Packet, k: nat)
    requires Full(s, recv, |p|, k)
    ensures LastIs(ZRun(s, recv, OneMore(p)), 2, Popped(p))
  {
    LateIsRefused(s, recv, p, k);
    WriteReads(s.buf, 0, WordBytes(|p|) + p);
    var t := s.(buf := Write(s.buf, 0, WordBytes(|p|) + p));
    LateIsPopped(t, recv, p);
    assert [PushOp(p), PopOp][1..] == [PopOp] && [PopOp][1..] == [];
  }

  lemma FirstSlot(n: nat, l: nat)
    requires Framed(l) <= n
    ensures n / Framed(l) > 0
  {
    Slots(n, l);
  }

  lemma IdealRefuses(cap: nat, q: seq<Packet>, p: Packet)
    requires |q| == cap > 0
    ensures IdealRun(AtMost(cap), q, [PushOp(p), PopOp]).1 == [Rejected, Popped(q[0])]
  {
    IdealCons(AtMost(cap), q, PushOp(p), [PopOp]);
    IdealCons(AtMost(cap), q, PopOp, []);
    assert [PopOp] + [] == [PopOp];
    assert [PushOp(p)] + [PopOp] == [PushOp(p), PopOp];
  }

  lemma LastCons(s: Ring, recv: nat, p: Packet, rest: seq<Op>, x: Obs)
    requires PACK_LEN_SIZE <= recv <= |s.buf| && NoReset(rest) && ZStep(s, recv, PushOp(p)).Some?
    requires var z := ZStep(s, recv, PushOp(p)).value; LastIs(ZRun(z.0, z.1, rest), |rest|, x)
    ensures NoReset([PushOp(p)] + rest) && LastIs(ZRun(s, recv, [PushOp(p)] + rest), |rest| + 1, x)
  {
    assert ([PushOp(p)] + rest)[1..] == rest;
  }

  lemma RepeatCons(p: Packet, n: nat, rest: seq<Op>)
    requires n > 0
    ensures Repeat(p, n) + rest == [PushOp(p)] + (Repeat(p, n - 1) + rest)
  {
  }

  /** One packet more, and a pop. */
  function OneMore(late: Packet): (ops: seq<Op>)
    ensures NoReset(ops)
  {
    [PushOp(late), PopOp]
  }

  /** Filling up the slots that are left, offering one more packet, and popping. */
  lemma {:induction false} FillUp(s: Ring, recv: nat, p: Packet, k: nat, j: nat, late: Packet)
    requires Filling(s, recv, |p|, k, j) && |late| == |p|
    ensures var ops := Repeat(p, k - j) + OneMore(late);
      NoReset(ops) && LastIs(ZRun(s, recv, ops), |ops|, Popped(late))
    decreases k - j
  {
    var rest := Repeat(p, k - j - 1) + OneMore(late);
    FillStep(s, recv, p, k, j);
    var x := ZStep(s, recv, PushOp(p)).value;
    if j + 1 < k {
      FillUp(x.0, x.1, p, k, j + 1, late);
    } else {
      assert rest == OneMore(late);
      RefusedOverwrites(x.0, x.1, late, k);
    }
    RepeatCons(p, k - j, OneMore(late));
    LastCons(s, recv, p, rest, Popped(late));
  }

  /** Fill every slot with `p`, offer one more packet, and pop. */
  function OverrunOps(n: nat, p: Packet, late: Packet): seq<Op> {
    Repeat(p, n / Framed(|p|)) + OneMore(late)
  }

  lemma IdealOverrun(cap: nat, p: Packet, late: Packet)
    requires cap > 0
    ensures var ideal := IdealRun(AtMost(cap), [], Repeat(p, cap) + OneMore(late)).1;
      |ideal| == cap + 2 && ideal[cap + 1] == Popped(p)
  {
    var fill, over := Repeat(p, cap), OneMore(late);
    IdealFill(cap, [], p, cap);
    IdealRefuses(cap, IdealRun(AtMost(cap), [], fill).0, late);
    IdealAppends(AtMost(cap), [], fill, over);
  }

  /** The refused packet is popped in place of the oldest one. */
  lemma WindowOverrun(buf: seq<byte>, p: Packet, late: Packet)
    requires Framed(|p|) <= |buf| && |buf| % Framed(|p|) >= |p| && |late| == |p|
    ensures var ops := OverrunOps(|buf|, p, late);
      NoReset(ops) && AllOfLength(ops, |p|) && LastIs(ZRun(Fresh(buf), PACK_LEN_SIZE, ops), |ops|, Popped(late)) &&
      var ideal := IdealRun(AtMost(SlotCapacity(|buf|, |p|)), [], ops).1;
      |ideal| == |ops| && ideal[|ops| - 1] == Popped(p)
  {
    FirstSlot(|buf|, |p|);
    FillUp(Fresh(buf), PACK_LEN_SIZE, p, |buf| / Framed(|p|), 0, late);
    IdealOverrun(|buf| / Framed(|p|), p, late);
  }

  // ----- The window alone -----

  /** A payload for the next free slot is pushed; behind the last one the ring turns. */
  lemma FillPush(s: Ring, recv: nat, p: Packet, q: seq<Packet>) returns (v: View)
    requires PACK_LEN_SIZE <= recv && recv + |p| <= |s.buf| && Admits(s, |p|) && Rep(At(s, recv), Linear(q))
    ensures ZStep(s, recv, PushOp(p)).Some? && v.Contents() == q + [p]
    ensures var x := ZStep(s, recv, PushOp(p)).value;
      Rep(At(x.0, x.1), v) && (x.1 != PACK_LEN_SIZE ==> v == Linear(q + [p]))
  {
    var t := At(s, recv);
    PushRefines(t, Linear(q), p);
    UpdateIsPush(s, recv, p);
    v := Linear(q + [p]);
    var pushed := Push(t, p);
    if pushed.w + Framed(|p|) > |s.buf| {
      TurnAround(pushed, q + [p], |p|);
      v := Wrapped(q + [p], [], pushed.w);
      assert (q + [p]) + [] == q + [p];
    }
  }

  lemma FillingAdmits(s: Ring, recv: nat, l: nat, k: nat, j: nat)
    requires Filling(s, recv, l, k, j) && l < MAX_PACK_SIZE
    ensures Admits(s, l) && recv + l <= |s.buf|
  {
    Slots(|s.buf|, l);
    AdmissionCounts(|s.buf|, l, j);
    Distribute(j, 1, Framed(l));
    Scale(j + 1, k, Framed(l));
  }

  /** The ring after filling up: the packets are queued, and the pointer is back at the start. */
  ghost predicate FilledWith(r: Option<(Ring, nat, seq<Obs>)>, v: View) {
    match r
    case None => false
    case Some(x) => x.0.r == 0 && x.1 == PACK_LEN_SIZE && Rep(At(x.0, x.1), v) && v.Contents() != []
  }

  lemma FilledCons(s: Ring, recv: nat, p: Packet, rest: seq<Op>, v: View)
    requires PACK_LEN_SIZE <= recv <= |s.buf| && NoReset(rest) && ZStep(s, recv, PushOp(p)).Some?
    requires var z := ZStep(s, recv, PushOp(p)).value; FilledWith(ZRun(z.0, z.1, rest), v)
    ensures NoReset([PushOp(p)] + rest) && FilledWith(ZRun(s, recv, [PushOp(p)] + rest), v)
  {
    assert ([PushOp(p)] + rest)[1..] == rest;
  }

  lemma LaterSlot(recv: nat, l: nat, j: nat)
    requires j > 0 && recv == j * Framed(l) + PACK_LEN_SIZE
    ensures recv != PACK_LEN_SIZE
  {
    Scale(1, j, Framed(l));
  }

  /** One slot more, with what it leaves queued. */
  lemma FillOne(s: Ring, recv: nat, p: Packet, k: nat, j: nat, q: seq<Packet>)
    requires Filling(s, recv, |p|, k, j) && Rep(At(s, recv), Linear(q)) && j + 1 < k
    ensures ZStep(s, recv, PushOp(p)).Some?
    ensures var x := ZStep(s, recv, PushOp(p)).value;
      Filling(x.0, x.1, |p|, k, j + 1) && Rep(At(x.0, x.1), Linear(q + [p]))
  {
    FillStep(s, recv, p, k, j);
    FillingAdmits(s, recv, |p|, k, j);
    var v := FillPush(s, recv, p, q);
    LaterSlot(ZStep(s, recv, PushOp(p)).value.1, |p|, j + 1);
  }

  /** The last slot: behind it the ring is full. */
  lemma FillLast(s: Ring, recv: nat, p: Packet, k: nat, q: seq<Packet>) returns (v: View)
    requires k > 0 && Filling(s, recv, |p|, k, k - 1) && Rep(At(s, recv), Linear(q))
    ensures FilledWith(ZRun(s, recv, [PushOp(p)] + []), v)
  {
    FillStep(s, recv, p, k, k - 1);
    FillingAdmits(s, recv, |p|, k, k - 1);
    v := FillPush(s, recv, p, q);
    FilledCons(s, recv, p, [], v);
  }

  lemma {:induction false} FillRing(s: Ring, recv: nat, p: Packet, k: nat, j: nat, q: seq<Packet>) returns (v: View)
    requires Filling(s, recv, |p|, k, j) && Rep(At(s, recv), Linear(q))
    ensures FilledWith(ZRun(s, recv, Repeat(p, k - j)), v)
    decreases k - j
  {
    var rest := Repeat(p, k - j - 1);
    assert Repeat(p, k - j) == [PushOp(p)] + rest;
    if j + 1 < k {
      FillOne(s, recv, p, k, j, q);
      var x := ZStep(s, recv, PushOp(p)).value;
      v := FillRing(x.0, x.1, p, k, j + 1, q + [p]);
      FilledCons(s, recv, p, rest, v);
    } else {
      v := FillLast(s, recv, p, k, q);
      assert rest == [];
    }
  }

  /** A reader at offset 0 with packets to read has unread bytes in a window at the start. */
  lemma WindowTaken(s: Ring, v: View, l: nat)
    requires s.r == 0 && s.rb < s.wb && |s.buf| >= PACK_LEN_SIZE && Rep(At(s, PACK_LEN_SIZE), v)
    ensures !WindowFree(s, PACK_LEN_SIZE, v, l)
  {
    NotEmpty(At(s, PACK_LEN_SIZE), v);
    if v.Wrapped? {
      EncodeEmpty(v.q1);
      EncodeEmpty(v.q2);
      assert Unread(At(s, PACK_LEN_SIZE), v, 0);
    }
  }

  /** After the run the window lies in the buffer and on nothing unread. */
  ghost predicate WindowStaysFree(buf: seq<byte>, l: nat, ops: seq<Op>)
    requires |buf| >= PACK_LEN_SIZE && NoReset(ops)
  {
    var run := ZRun(Fresh(buf), PACK_LEN_SIZE, ops);
    run.Some? &&
    exists v :: Rep(At(run.value.0, run.value.1), v) && WindowFree(run.value.0, run.value.1, v, l)
  }

  /** A filled ring holds its packets, with the window on the oldest. */
  lemma FilledTakesWindow(buf: seq<byte>, p: Packet) returns (v: View)
    requires Framed(|p|) <= |buf| && |buf| % Framed(|p|) >= |p|
    ensures var ops := Repeat(p, |buf| / Framed(|p|));
      NoReset(ops) && AllOfLength(ops, |p|) && ZRun(Fresh(buf), PACK_LEN_SIZE, ops).Some? &&
      var run := ZRun(Fresh(buf), PACK_LEN_SIZE, ops).value;
      Rep(At(run.0, run.1), v) && v.Contents() != [] && !WindowStaysFree(buf, |p|, ops)
  {
    var k := |buf| / Framed(|p|);
    FirstSlot(|buf|, |p|);
    v := FillRing(Fresh(buf), PACK_LEN_SIZE, p, k, 0, []);
    var run := ZRun(Fresh(buf), PACK_LEN_SIZE, Repeat(p, k)).value;
    NotEmpty(At(run.0, run.1), v);
    forall u | Rep(At(run.0, run.1), u)
      ensures !WindowFree(run.0, run.1, u, |p|)
    {
      WindowTaken(run.0, u, |p|);
    }
  }

  /** The receive window is free after every run exactly when the tail after the last slot is
      shorter than a payload. */
  lemma WindowIsFreeIff(buf: seq<byte>, l: nat)
    requires 1 <= l < MAX_PACK_SIZE && Framed(l) <= |buf|
    ensures |buf| % Framed(l) < l <==> forall ops | NoReset(ops) && AllOfLength(ops, l) :: WindowStaysFree(buf, l, ops)
  {
    if |buf| % Framed(l) < l {
      forall ops | NoReset(ops) && AllOfLength(ops, l)
        ensures WindowStaysFree(buf, l, ops)
      {
        ZeroCopyRefinement(buf, l, ops);
      }
    } else {
      var p: Packet := Filled(l);
      var v := FilledTakesWindow(buf, p);
      assert !WindowStaysFree(buf, l, Repeat(p, |buf| / Framed(l)));
    }
  }

  // ----- The answers alone -----

  /** Every call is answered as by a bounded queue. */
  ghost predicate AnswersRight(buf: seq<byte>, l: nat, ops: seq<Op>)
    requires |buf| >= PACK_LEN_SIZE && NoReset(ops)
  {
    var run := ZRun(Fresh(buf), PACK_LEN_SIZE, ops);
    run.Some? && run.value.2 == IdealRun(AtMost(SlotCapacity(|buf|, l)), [], ops).1
  }

  /** Zero-copy receiving answers every call of every run as a bounded queue does exactly when the
      tail after the last slot is shorter than a payload. */
  lemma ZeroCopyIsSoundIff(buf: seq<byte>, l: nat)
    requires 1 <= l < MAX_PACK_SIZE && Framed(l) <= |buf|
    ensures |buf| % Framed(l) < l <==> forall ops | NoReset(ops) && AllOfLength(ops, l) :: AnswersRight(buf, l, ops)
    ensures |buf| % Framed(l) < l <==>
      forall ops | NoReset(ops) && AllOfLength(ops, l) ::
        ZAgrees(ZRun(Fresh(buf), PACK_LEN_SIZE, ops), IdealRun(AtMost(SlotCapacity(|buf|, l)), [], ops), l)
  {
    if |buf| % Framed(l) < l {
      forall ops | NoReset(ops) && AllOfLength(ops, l)
        ensures AnswersRight(buf, l, ops)
        ensures ZAgrees(ZRun(Fresh(buf), PACK_LEN_SIZE, ops), IdealRun(AtMost(SlotCapacity(|buf|, l)), [], ops), l)
      {
        ZeroCopyRefinement(buf, l, ops);
      }
    } else {
      var p: Packet, late: Packet := Filled(l), Filled(l - 1) + [1];
      assert p[l - 1] != late[l - 1];
      WindowOverrun(buf, p, late);
      assert !AnswersRight(buf, l, OverrunOps(|buf|, p, late));
    }
  }
}
