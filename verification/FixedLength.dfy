/** Packets of one length L under the code's own admission test: the ring is a bounded queue
    whose capacity is known exactly, in both producer modes. */
module FixedLength {
  import opened Bytes
  import opened Ring
  import opened QueueRuns
  import opened Wrappers

  // ----- Slots -----

  /** A packet of length `l` with its length word. */
  function Framed(l: nat): nat {
    l + PACK_LEN_SIZE
  }

  /** The number of packets of length `l` that a ring of `n` bytes ever holds: one slot is lost
      unless the tail left over after the last slot could hold the payload. */
  function SlotCapacity(n: nat, l: nat): nat {
    var k := n / Framed(l);
    if n % Framed(l) >= l || k == 0 then k else k - 1
  }

  predicate Uniform(q: seq<Packet>, l: nat) {
    forall i :: 0 <= i < |q| ==> |q[i]| == l
  }

  lemma {:induction false} UniformSize(q: seq<Packet>, l: nat)
    requires Uniform(q, l)
    ensures |Encode(q)| == |q| * Framed(l)
    decreases |q|
  {
    if q != [] {
      UniformSize(q[1..], l);
      Distribute(|q| - 1, 1, Framed(l));
    }
  }

  lemma Distribute(a: int, b: int, c: int)
    ensures (a + b) * c == a * c + b * c
  {
  }

  lemma Scale(a: int, b: int, c: nat)
    requires a <= b
    ensures a * c <= b * c
  {
  }

  lemma ScaleBack(a: int, b: int, c: nat)
    requires a * c < b * c
    ensures a < b
  {
    if b <= a {
      Scale(b, a, c);
    }
  }

  lemma Slots(n: nat, l: nat)
    ensures n == (n / Framed(l)) * Framed(l) + n % Framed(l)
  {
  }

  /** The admission test, in packets. */
  lemma AdmissionCounts(n: nat, l: nat, count: nat)
    requires l >= 1
    ensures count * Framed(l) + 2 * l + 2 <= n <==> count < SlotCapacity(n, l)
  {
    var s := Framed(l);
    var k, tail := n / s, n % s;
    Slots(n, l);
    Distribute(count, 2, s);
    // the test reads (count + 2) * s - 2 <= k * s + tail
    if count + 2 <= k {
      Scale(count + 2, k, s);
    } else if count + 2 == k + 1 {
      Distribute(k, 1, s);
    } else {
      Scale(k + 2, count + 2, s);
      Distribute(k, 2, s);
    }
  }

  /** Linear or wrapped in slots of equal size, the reader `k` slots into the buffer. */
  ghost predicate SlotRep(s: Ring, v: View, l: nat, k: nat) {
    && 1 <= l < MAX_PACK_SIZE
    && Rep(s, v) && Uniform(v.Contents(), l)
    && s.r == k * Framed(l)
    && match v
       case Linear(q) => s.w == (k + |q|) * Framed(l)
       case Wrapped(q1, q2, e) =>
         e == (k + |q1|) * Framed(l) && e + Framed(l) > |s.buf| && s.w == |q2| * Framed(l)
  }

  lemma SlotAdmits(s: Ring, v: View, l: nat, k: nat)
    requires SlotRep(s, v, l, k)
    ensures Admits(s, l) <==> |v.Contents()| < SlotCapacity(|s.buf|, l)
  {
    UniformSize(v.Contents(), l);
    AdmissionCounts(|s.buf|, l, |v.Contents()|);
  }

  lemma WrapsAtLastSlot(n: nat, l: nat, i: nat)
    requires l >= 1 && i * Framed(l) + Framed(l) > n
    ensures n / Framed(l) <= i
  {
    Slots(n, l);
    Distribute(i, 1, Framed(l));
    ScaleBack(n / Framed(l), i + 1, Framed(l));
  }

  lemma SlotRoom(s: Ring, v: View, l: nat, k: nat)
    requires SlotRep(s, v, l, k) && Admits(s, l)
    ensures Room(s, v, l)
  {
    SlotAdmits(s, v, l, k);
    match v
    case Linear(q) =>
      if s.w + Framed(l) > |s.buf| {
        WrapsAtLastSlot(|s.buf|, l, k + |q|);
        Scale(1, k, Framed(l));
      }
    case Wrapped(q1, q2, e) =>
      WrapsAtLastSlot(|s.buf|, l, k + |q1|);
      Scale(|q2| + 1, k, Framed(l));
      Distribute(|q2|, 1, Framed(l));
  }

  lemma UniformAppend(q: seq<Packet>, p: Packet, l: nat)
    requires Uniform(q, l) && |p| == l
    ensures Uniform(q + [p], l)
  {
  }

  /** In slots of equal size, a push leaves the reader and the first run where they are. */
  lemma SlotPushLinear(s: Ring, q: seq<Packet>, l: nat, k: nat, p: Packet)
    requires SlotRep(s, Linear(q), l, k) && |p| == l && Admits(s, l)
    requires Rep(Push(s, p), PushView(s, Linear(q), p)) && Uniform(q + [p], l)
    ensures SlotRep(Push(s, p), PushView(s, Linear(q), p), l, k)
  {
    Distribute(k + |q|, 1, Framed(l));
    if s.w + PACK_LEN_SIZE + l > |s.buf| {
      PushTurns(s, Linear(q), p);
    }
  }

  lemma SlotPushWrapped(s: Ring, v: View, l: nat, k: nat, p: Packet)
    requires SlotRep(s, v, l, k) && v.Wrapped? && |p| == l && Admits(s, l) && Room(s, v, l)
    requires Rep(Push(s, p), PushView(s, v, p)) && Uniform(PushView(s, v, p).Contents(), l)
    ensures SlotRep(Push(s, p), PushView(s, v, p), l, k)
  {
    Distribute(|v.q2|, 1, Framed(l));
    PushWrapped(s, v, p);
  }

  lemma SlotPush(s: Ring, v: View, l: nat, k: nat, p: Packet)
    requires SlotRep(s, v, l, k) && |p| == l && Admits(s, l)
    ensures SlotRep(Push(s, p), PushView(s, v, p), l, k)
    ensures PushView(s, v, p).Contents() == v.Contents() + [p]
  {
    SlotRoom(s, v, l, k);
    PushRefines(s, v, p);
    UniformAppend(v.Contents(), p, l);
    match v
    case Linear(q) => SlotPushLinear(s, q, l, k, p);
    case Wrapped(_, _, _) => SlotPushWrapped(s, v, l, k, p);
  }

  lemma UniformTail(q: seq<Packet>, l: nat)
    requires Uniform(q, l) && q != []
    ensures Uniform(q[1..], l) && |q[0]| == l
  {
  }

  lemma SlotPopAt(s: Ring, v: View, l: nat, k: nat)
    requires SlotRep(s, v, l, k) && v.Contents() != []
    ensures AfterPop(s, v) == Moved(s, HeadAt(s, v), l)
    ensures Rep(Moved(s, HeadAt(s, v), l), PopView(v)) && Uniform(PopView(v).Contents(), l)
  {
    PopRefines(s, v);
    UniformTail(v.Contents(), l);
  }

  lemma NextSlot(k: nat, n: nat, l: nat)
    requires n > 0
    ensures k * Framed(l) + Framed(l) == (k + 1) * Framed(l)
    ensures (k + n) * Framed(l) == (k + 1 + (n - 1)) * Framed(l)
  {
    Distribute(k, 1, Framed(l));
  }

  lemma SlotPopLinear(s: Ring, q: seq<Packet>, l: nat, k: nat)
    requires SlotRep(s, Linear(q), l, k) && q != []
    ensures SlotRep(Moved(s, s.r, l), Linear(q[1..]), l, k + 1)
  {
    SlotPopAt(s, Linear(q), l, k);
    NextSlot(k, |q|, l);
  }

  lemma SlotPopFirst(s: Ring, q1: seq<Packet>, q2: seq<Packet>, e: nat, l: nat, k: nat)
    requires SlotRep(s, Wrapped(q1, q2, e), l, k) && q1 != []
    ensures SlotRep(Moved(s, s.r, l), Wrapped(q1[1..], q2, e), l, k + 1)
  {
    SlotPopAt(s, Wrapped(q1, q2, e), l, k);
    NextSlot(k, |q1|, l);
  }

  lemma SlotPopCrosses(s: Ring, q2: seq<Packet>, e: nat, l: nat, k: nat)
    requires SlotRep(s, Wrapped([], q2, e), l, k) && q2 != []
    ensures SlotRep(Moved(s, 0, l), Linear(q2[1..]), l, 1)
  {
    assert [] + q2 == q2;
    SlotPopAt(s, Wrapped([], q2, e), l, k);
  }

  lemma SlotPop(s: Ring, v: View, l: nat, k: nat) returns (k': nat)
    requires SlotRep(s, v, l, k) && v.Contents() != []
    ensures s.rb < s.wb && Pop(s) == Some((v.Contents()[0], AfterPop(s, v)))
    ensures SlotRep(AfterPop(s, v), PopView(v), l, k')
    ensures PopView(v).Contents() == v.Contents()[1..]
  {
    PopRefines(s, v);
    SlotPopAt(s, v, l, k);
    k' := k + 1;
    if v.Linear? {
      SlotPopLinear(s, v.q, l, k);
    } else if v.q1 != [] {
      SlotPopFirst(s, v.q1, v.q2, v.e, l, k);
    } else {
      assert v.Contents() == v.q2;
      SlotPopCrosses(s, v.q2, v.e, l, k);
      k' := 1;
    }
  }

  lemma SlotPeek(s: Ring, v: View, l: nat, k: nat) returns (k': nat)
    requires SlotRep(s, v, l, k)
    ensures Peek(s).Some? && Peek(s).value.0 == (if v.Contents() == [] then 0 else |v.Contents()[0]|)
    ensures SlotRep(Peek(s).value.1, PeekView(v), l, k') && PeekView(v).Contents() == v.Contents()
  {
    PeekRefines(s, v);
    k' := if PeekView(v) == v then k else 0;
  }

  // ----- Whole runs -----

  predicate AllOfLength(ops: seq<Op>, l: nat) {
    forall i :: 0 <= i < |ops| && ops[i].PushOp? ==> |ops[i].p| == l
  }

  /** The step answers as the bounded queue does, and what it leaves is what is left there. */
  ghost predicate StepAgrees(s: Ring, v: View, l: nat, op: Op, v': View, k': nat) {
    && Step(s, op).Some? && |Step(s, op).value.0.buf| == |s.buf|
    && SlotRep(Step(s, op).value.0, v', l, k')
    && (v'.Contents(), Step(s, op).value.1) == IdealStep(AtMost(SlotCapacity(|s.buf|, l)), v.Contents(), op)
  }

  lemma PushAgrees(s: Ring, v: View, l: nat, k: nat, p: Packet) returns (v': View)
    requires SlotRep(s, v, l, k) && |p| == l
    ensures StepAgrees(s, v, l, PushOp(p), v', k)
  {
    SlotAdmits(s, v, l, k);
    v' := v;
    if Admits(s, l) {
      SlotPush(s, v, l, k, p);
      v' := PushView(s, v, p);
    }
  }

  lemma PopAgrees(s: Ring, v: View, l: nat, k: nat) returns (v': View, k': nat)
    requires SlotRep(s, v, l, k)
    ensures StepAgrees(s, v, l, PopOp, v', k')
  {
    NotEmpty(s, v);
    v', k' := v, k;
    if v.Contents() != [] {
      k' := SlotPop(s, v, l, k);
      v' := PopView(v);
      PopKeepsBuffer(s);
    }
  }

  lemma PeekAgrees(s: Ring, v: View, l: nat, k: nat) returns (v': View, k': nat)
    requires SlotRep(s, v, l, k)
    ensures StepAgrees(s, v, l, PeekOp, v', k')
  {
    k' := SlotPeek(s, v, l, k);
    v' := PeekView(v);
  }

  lemma SlotStep(s: Ring, v: View, l: nat, k: nat, op: Op) returns (v': View, k': nat)
    requires SlotRep(s, v, l, k) && (op.PushOp? ==> |op.p| == l)
    ensures StepAgrees(s, v, l, op, v', k')
  {
    match op
    case PushOp(p) =>
      v' := PushAgrees(s, v, l, k, p);
      k' := k;
    case PopOp => v', k' := PopAgrees(s, v, l, k);
    case PeekOp => v', k' := PeekAgrees(s, v, l, k);
    case ResetOp => v', k' := Linear([]), 0;
  }

  lemma {:induction false} SlotRun(s: Ring, v: View, l: nat, k: nat, ops: seq<Op>)
    requires SlotRep(s, v, l, k) && AllOfLength(ops, l)
    ensures Agrees(Run(s, ops), IdealRun(AtMost(SlotCapacity(|s.buf|, l)), v.Contents(), ops))
    decreases |ops|
  {
    if ops != [] {
      var v', k' := SlotStep(s, v, l, k, ops[0]);
      SlotRun(Step(s, ops[0]).value.0, v', l, k', ops[1..]);
    }
  }

  /** One packet length: for every buffer, length and run, the ring answers every call as a queue
      of capacity SlotCapacity does, popping each accepted packet once, in order, byte for byte. */
  lemma FixedLengthRefinement(buf: seq<byte>, l: nat, ops: seq<Op>)
    requires 1 <= l < MAX_PACK_SIZE && AllOfLength(ops, l)
    ensures Agrees(Run(Fresh(buf), ops), IdealRun(AtMost(SlotCapacity(|buf|, l)), [], ops))
  {
    SlotRun(Fresh(buf), Linear([]), l, 0, ops);
  }

  /** What was popped since the last Reset, followed by what is queued, is what was accepted. */
  lemma FirstInFirstOut(buf: seq<byte>, l: nat, ops: seq<Op>)
    requires 1 <= l < MAX_PACK_SIZE && AllOfLength(ops, l)
    ensures Run(Fresh(buf), ops).Some?
    ensures var run := Run(Fresh(buf), ops).value;
      exists v :: Rep(run.0, v) && AcceptedSince(ops, run.1, []) == PoppedSince(ops, run.1, []) + v.Contents()
  {
    FixedLengthRefinement(buf, l, ops);
    IdealHistory(AtMost(SlotCapacity(|buf|, l)), [], ops, [], []);
  }
}
