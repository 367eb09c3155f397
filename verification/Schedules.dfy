/** Whole runs with packets of mixed lengths. A client that knows only the lengths of its calls can
    tell which runs are safe whatever the payloads: exactly those in which every push has room. */
module Schedules {
  import opened Bytes
  import opened Exactness
  import opened QueueRuns
  import opened Ring
  import opened Wrappers

  // ----- Positions and lengths alone -----

  datatype Call = PushLen(n: PacketLength) | PopCall | PeekCall | ResetCall

  function CallOf(op: Op): Call {
    match op
    case PushOp(p) => PushLen(|p|)
    case PopOp => PopCall
    case PeekOp => PeekCall
    case ResetOp => ResetCall
  }

  function Calls(ops: seq<Op>): seq<Call> {
    seq(|ops|, i requires 0 <= i < |ops| => CallOf(ops[i]))
  }

  /** A view with lengths in place of packets. */
  datatype Shape = InLine(q: seq<nat>) | Around(q1: seq<nat>, q2: seq<nat>, e: nat) {
    function Queue(): seq<nat> {
      if InLine? then q else q1 + q2
    }
  }

  /** `n` bytes, the reader at `r`, the writer at `w`. */
  datatype Layout = Layout(n: nat, r: nat, w: nat, shape: Shape)

  function Start(n: nat): Layout {
    Layout(n, 0, 0, InLine([]))
  }

  /** The framed size of packets of these lengths. */
  function Used(lens: seq<nat>): nat
    decreases |lens|
  {
    if lens == [] then 0 else lens[0] + PACK_LEN_SIZE + Used(lens[1..])
  }

  predicate Admitted(g: Layout, len: nat) {
    Used(g.shape.Queue()) + 2 * len + 2 * (PACK_LEN_SIZE - 1) <= g.n
  }

  /** How far the writer may go: to the reader, or to the end if the reader skips a tail. */
  function Limit(g: Layout): nat {
    match g.shape
    case InLine(q) => if q == [] && g.w + PACK_LEN_SIZE > g.n then g.n else g.r
    case Around(q1, _, e) => if q1 == [] && e + PACK_LEN_SIZE > g.n then g.n else g.r
  }

  predicate HasRoom(g: Layout, len: nat) {
    if g.shape.InLine? then g.w + PACK_LEN_SIZE + len <= g.n || PACK_LEN_SIZE + len <= Limit(g)
    else g.w + PACK_LEN_SIZE + len <= Limit(g)
  }

  function PushLaid(g: Layout, len: nat): Layout {
    match g.shape
    case InLine(q) =>
      if g.w + PACK_LEN_SIZE + len <= g.n then g.(w := g.w + PACK_LEN_SIZE + len, shape := InLine(q + [len]))
      else g.(w := PACK_LEN_SIZE + len, shape := Around(q, [len], g.w))
    case Around(q1, q2, e) => g.(w := g.w + PACK_LEN_SIZE + len, shape := Around(q1, q2 + [len], e))
  }

  function PopLaid(g: Layout): Layout {
    match g.shape
    case InLine(q) => if q == [] then g else g.(r := g.r + PACK_LEN_SIZE + q[0], shape := InLine(q[1..]))
    case Around(q1, q2, e) =>
      if q1 != [] then g.(r := g.r + PACK_LEN_SIZE + q1[0], shape := Around(q1[1..], q2, e))
      else if q2 != [] then g.(r := PACK_LEN_SIZE + q2[0], shape := InLine(q2[1..]))
      else g
  }

  function PeekLaid(g: Layout): Layout {
    if g.shape.Around? && g.shape.q1 == [] && g.shape.q2 != [] then g.(r := 0, shape := InLine(g.shape.q2)) else g
  }

  function CallLaid(g: Layout, call: Call): Layout {
    match call
    case PushLen(len) => if Admitted(g, len) then PushLaid(g, len) else g
    case PopCall => PopLaid(g)
    case PeekCall => PeekLaid(g)
    case ResetCall => Start(g.n)
  }

  /** Every push that is admitted on the way has room. */
  predicate RoomAlong(g: Layout, calls: seq<Call>)
    decreases |calls|
  {
    calls == [] ||
    ((calls[0].PushLen? && Admitted(g, calls[0].n) ==> HasRoom(g, calls[0].n)) &&
     RoomAlong(CallLaid(g, calls[0]), calls[1..]))
  }

  // ----- The layout of a ring -----

  function Lens(q: seq<Packet>): (lens: seq<nat>)
    ensures |lens| == |q|
  {
    seq(|q|, i requires 0 <= i < |q| => |q[i]|)
  }

  function ShapeOf(v: View): Shape {
    match v
    case Linear(q) => InLine(Lens(q))
    case Wrapped(q1, q2, e) => Around(Lens(q1), Lens(q2), e)
  }

  function LayoutOf(s: Ring, v: View): Layout {
    Layout(|s.buf|, s.r, s.w, ShapeOf(v))
  }

  lemma {:induction false} EncodeUses(q: seq<Packet>)
    ensures |Encode(q)| == Used(Lens(q))
    decreases |q|
  {
    if q != [] {
      EncodeUses(q[1..]);
      assert Lens(q)[1..] == Lens(q[1..]);
    }
  }

  lemma LensAppend(a: seq<Packet>, b: seq<Packet>)
    ensures Lens(a + b) == Lens(a) + Lens(b)
  {
  }

  lemma LensTail(q: seq<Packet>)
    requires q != []
    ensures Lens(q) != [] && Lens(q)[0] == |q[0]| && Lens(q)[1..] == Lens(q[1..])
  {
  }

  lemma QueueOfShape(v: View)
    ensures ShapeOf(v).Queue() == Lens(v.Contents())
  {
    if v.Wrapped? {
      LensAppend(v.q1, v.q2);
    }
  }

  /** The two tests need nothing but the layout. */
  lemma LayoutTests(s: Ring, v: View, len: nat)
    requires Rep(s, v)
    ensures Admits(s, len) <==> Admitted(LayoutOf(s, v), len)
    ensures Room(s, v, len) <==> HasRoom(LayoutOf(s, v), len)
  {
    QueueOfShape(v);
    EncodeUses(v.Contents());
  }

  lemma PushIsLaid(s: Ring, v: View, p: Packet)
    requires Rep(s, v) && Admits(s, |p|) && Room(s, v, |p|)
    ensures LayoutOf(Push(s, p), PushView(s, v, p)) == PushLaid(LayoutOf(s, v), |p|)
  {
    assert Lens([p]) == [|p|];
    match v
    case Linear(q) =>
      LensAppend(q, [p]);
      if s.w + PACK_LEN_SIZE + |p| > |s.buf| {
        PushTurns(s, v, p);
      }
    case Wrapped(q1, q2, e) =>
      LensAppend(q2, [p]);
      PushWrapped(s, v, p);
  }

  lemma PopIsLaid(s: Ring, v: View)
    requires v.Contents() != []
    ensures LayoutOf(AfterPop(s, v), PopView(v)) == PopLaid(LayoutOf(s, v))
  {
    match v
    case Linear(q) => LensTail(q);
    case Wrapped(q1, q2, e) =>
      if q1 != [] {
        LensTail(q1);
      } else {
        assert v.Contents() == q2;
        LensTail(q2);
      }
  }

  // ----- Runs -----

  /** At every point of the run, draining the ring would return the ideal queue, and every call is
      answered as by the queue that accepts by the code's own test. */
  ghost predicate StaysRight(s: Ring, q: seq<Packet>, ops: seq<Op>)
    decreases |ops|
  {
    PopsAs(s, q) &&
    (ops == [] ||
     (Step(s, ops[0]).Some? &&
      Step(s, ops[0]).value.1 == IdealStep(Bytes(|s.buf|), q, ops[0]).1 &&
      StaysRight(Step(s, ops[0]).value.0, IdealStep(Bytes(|s.buf|), q, ops[0]).0, ops[1..])))
  }

  /** One call on a represented queue: the answer, the queue and the layout afterwards. */
  ghost predicate CallAgrees(s: Ring, v: View, op: Op, v': View) {
    && Step(s, op).Some? && |Step(s, op).value.0.buf| == |s.buf| && Rep(Step(s, op).value.0, v')
    && (v'.Contents(), Step(s, op).value.1) == IdealStep(Bytes(|s.buf|), v.Contents(), op)
    && LayoutOf(Step(s, op).value.0, v') == CallLaid(LayoutOf(s, v), CallOf(op))
  }

  lemma PushCallAgrees(s: Ring, v: View, p: Packet) returns (v': View)
    requires Rep(s, v) && (Admitted(LayoutOf(s, v), |p|) ==> HasRoom(LayoutOf(s, v), |p|))
    ensures CallAgrees(s, v, PushOp(p), v')
  {
    LayoutTests(s, v, |p|);
    v' := v;
    if Admits(s, |p|) {
      PushRefines(s, v, p);
      PushIsLaid(s, v, p);
      v' := PushView(s, v, p);
    }
  }

  lemma PopCallAgrees(s: Ring, v: View) returns (v': View)
    requires Rep(s, v)
    ensures CallAgrees(s, v, PopOp, v')
  {
    NotEmpty(s, v);
    v' := v;
    if v.Contents() != [] {
      PopRefines(s, v);
      PopIsLaid(s, v);
      v' := PopView(v);
      assert Step(s, PopOp) == Some((AfterPop(s, v), Popped(v.Contents()[0])));
    }
  }

  lemma PeekIsLaid(s: Ring, v: View)
    requires v.Contents() != []
    ensures LayoutOf(s.(r := HeadAt(s, v)), PeekView(v)) == PeekLaid(LayoutOf(s, v))
  {
  }

  lemma PeekCallAgrees(s: Ring, v: View)
    requires Rep(s, v)
    ensures CallAgrees(s, v, PeekOp, PeekView(v))
  {
    PeekRefines(s, v);
    if v.Contents() != [] {
      PeekIsLaid(s, v);
    }
  }

  lemma CallsAgree(s: Ring, v: View, op: Op) returns (v': View)
    requires Rep(s, v)
    requires op.PushOp? && Admitted(LayoutOf(s, v), |op.p|) ==> HasRoom(LayoutOf(s, v), |op.p|)
    ensures CallAgrees(s, v, op, v')
  {
    match op
    case PushOp(p) => v' := PushCallAgrees(s, v, p);
    case PopOp => v' := PopCallAgrees(s, v);
    case PeekOp =>
      PeekCallAgrees(s, v);
      v' := PeekView(v);
    case ResetOp => v' := Linear([]);
  }

  lemma StaysRightCons(s: Ring, q: seq<Packet>, op: Op, rest: seq<Op>, next: Ring, after: seq<Packet>, ans: Obs)
    requires Step(s, op) == Some((next, ans)) && IdealStep(Bytes(|s.buf|), q, op) == (after, ans)
    ensures StaysRight(s, q, [op] + rest) <==> PopsAs(s, q) && StaysRight(next, after, rest)
  {
    assert ([op] + rest)[1..] == rest;
  }

  lemma AgreesCons(s: Ring, cap: Capacity, q: seq<Packet>, op: Op, rest: seq<Op>, next: Ring, after: seq<Packet>,
      ans: Obs)
    requires Step(s, op) == Some((next, ans)) && IdealStep(cap, q, op) == (after, ans)
    requires Agrees(Run(next, rest), IdealRun(cap, after, rest))
    ensures Agrees(Run(s, [op] + rest), IdealRun(cap, q, [op] + rest))
  {
    assert ([op] + rest)[1..] == rest;
  }

  lemma CallsCons(op: Op, rest: seq<Op>)
    ensures Calls([op] + rest) == [CallOf(op)] + Calls(rest)
  {
  }

  lemma RoomAlongCons(g: Layout, call: Call, calls: seq<Call>)
    requires call.PushLen? && Admitted(g, call.n) ==> HasRoom(g, call.n)
    ensures RoomAlong(g, [call] + calls) <==> RoomAlong(CallLaid(g, call), calls)
  {
    assert ([call] + calls)[1..] == calls;
  }

  /** The first call of a run that has room along the way. */
  lemma FirstCall(s: Ring, v: View, op: Op, calls: seq<Call>) returns (next: Ring, v': View, ans: Obs)
    requires Rep(s, v)
    requires op.PushOp? && Admitted(LayoutOf(s, v), |op.p|) ==> HasRoom(LayoutOf(s, v), |op.p|)
    ensures Step(s, op) == Some((next, ans)) && Rep(next, v') && |next.buf| == |s.buf|
    ensures IdealStep(Bytes(|s.buf|), v.Contents(), op) == (v'.Contents(), ans)
    ensures LayoutOf(next, v') == CallLaid(LayoutOf(s, v), CallOf(op))
    ensures RoomAlong(LayoutOf(s, v), [CallOf(op)] + calls) <==> RoomAlong(LayoutOf(next, v'), calls)
  {
    v' := CallsAgree(s, v, op);
    next, ans := Step(s, op).value.0, Step(s, op).value.1;
    RoomAlongCons(LayoutOf(s, v), CallOf(op), calls);
  }

  lemma {:induction false} RoomStaysRight(s: Ring, v: View, ops: seq<Op>)
    requires Rep(s, v) && RoomAlong(LayoutOf(s, v), Calls(ops))
    ensures StaysRight(s, v.Contents(), ops)
    decreases |ops|
  {
    RepPopsAs(s, v);
    if ops != [] {
      var op, rest := ops[0], ops[1..];
      assert ops == [op] + rest;
      CallsCons(op, rest);
      var next, v', ans := FirstCall(s, v, op, Calls(rest));
      RoomStaysRight(next, v', rest);
      StaysRightCons(s, v.Contents(), op, rest, next, v'.Contents(), ans);
    }
  }

  lemma {:induction false} RoomAgrees(s: Ring, v: View, ops: seq<Op>)
    requires Rep(s, v) && RoomAlong(LayoutOf(s, v), Calls(ops))
    ensures Agrees(Run(s, ops), IdealRun(Bytes(|s.buf|), v.Contents(), ops))
    decreases |ops|
  {
    if ops != [] {
      var op, rest := ops[0], ops[1..];
      assert ops == [op] + rest;
      CallsCons(op, rest);
      var next, v', ans := FirstCall(s, v, op, Calls(rest));
      RoomAgrees(next, v', rest);
      AgreesCons(s, Bytes(|s.buf|), v.Contents(), op, rest, next, v'.Contents(), ans);
    }
  }

  /** Some operation for each call. */
  function Blank(call: Call): (op: Op)
    ensures CallOf(op) == call
  {
    match call
    case PushLen(n) => PushOp(Filled(n))
    case PopCall => PopOp
    case PeekCall => PeekOp
    case ResetCall => ResetOp
  }

  function Blanks(calls: seq<Call>): (ops: seq<Op>)
    ensures Calls(ops) == calls
  {
    var ops := seq(|calls|, i requires 0 <= i < |calls| => Blank(calls[i]));
    assert forall i :: 0 <= i < |calls| ==> CallOf(ops[i]) == calls[i];
    ops
  }

  /** A push without room spoils the run for some payload, whatever follows. */
  lemma NoRoomHere(s: Ring, v: View, n: PacketLength, calls: seq<Call>) returns (ops: seq<Op>)
    requires Rep(s, v) && Admits(s, n) && !Room(s, v, n)
    ensures Calls(ops) == [PushLen(n)] + calls && !StaysRight(s, v.Contents(), ops)
  {
    var p := NoRoomFails(s, v, n);
    var rest := Blanks(calls);
    EncodeUses(v.Contents());
    LayoutTests(s, v, n);
    QueueOfShape(v);
    CallsCons(PushOp(p), rest);
    ops := [PushOp(p)] + rest;
    StaysRightCons(s, v.Contents(), PushOp(p), rest, Push(s, p), v.Contents() + [p], Accepted);
    assert !PopsAs(Push(s, p), v.Contents() + [p]);
  }

  /** Without room somewhere on the way, payloads exist with which the run goes wrong. */
  lemma {:induction false} NoRoomRun(s: Ring, v: View, calls: seq<Call>) returns (ops: seq<Op>)
    requires Rep(s, v) && !RoomAlong(LayoutOf(s, v), calls)
    ensures Calls(ops) == calls && !StaysRight(s, v.Contents(), ops)
    decreases |calls|
  {
    var call, rest := calls[0], calls[1..];
    assert calls == [call] + rest;
    if call.PushLen? {
      LayoutTests(s, v, call.n);
    }
    if call.PushLen? && Admits(s, call.n) && !Room(s, v, call.n) {
      ops := NoRoomHere(s, v, call.n, rest);
    } else {
      var op := Blank(call);
      var next, v', ans := FirstCall(s, v, op, rest);
      var later := NoRoomRun(next, v', rest);
      CallsCons(op, later);
      ops := [op] + later;
      StaysRightCons(s, v.Contents(), op, later, next, v'.Contents(), ans);
    }
  }

  /** For every buffer size and every sequence of calls, lengths given and payloads not: all payloads
      are handled right throughout exactly when every admitted push on the way has room. */
  lemma ScheduleIff(buf: seq<byte>, calls: seq<Call>)
    ensures (forall ops | Calls(ops) == calls :: StaysRight(Fresh(buf), [], ops)) <==>
      RoomAlong(Start(|buf|), calls)
  {
    assert LayoutOf(Fresh(buf), Linear([])) == Start(|buf|);
    if RoomAlong(Start(|buf|), calls) {
      forall ops | Calls(ops) == calls
        ensures StaysRight(Fresh(buf), [], ops)
      {
        RoomStaysRight(Fresh(buf), Linear([]), ops);
      }
    } else {
      var ops := NoRoomRun(Fresh(buf), Linear([]), calls);
    }
  }

  /** A run in which every admitted push has room answers as the ideal queue that accepts by the
      code's own test, and leaves what is left there. */
  lemma RoomRefinement(buf: seq<byte>, ops: seq<Op>)
    requires RoomAlong(Start(|buf|), Calls(ops))
    ensures Agrees(Run(Fresh(buf), ops), IdealRun(Bytes(|buf|), [], ops))
  {
    assert LayoutOf(Fresh(buf), Linear([])) == Start(|buf|);
    RoomAgrees(Fresh(buf), Linear([]), ops);
  }
}
