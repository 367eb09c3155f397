/** Whole runs of the ring buffer against an ideal queue. Each operation runs under the lock, so
    any interleaving of producers and consumers is a sequence of operations. */
module QueueRuns {
  import opened Bytes
  import opened Ring
  import opened Wrappers

  datatype Op = PushOp(p: Packet) | PopOp | PeekOp | ResetOp

  /** What the caller sees; Waiting is a pop that finds nothing and keeps waiting. */
  datatype Obs = Accepted | Rejected | Popped(p: seq<byte>) | Waiting | Length(n: nat) | Cleared

  function Reset(s: Ring): Ring {
    s.(r := 0, w := 0, rb := 0, wb := 0)
  }

  function PushStep(s: Ring, p: seq<byte>): Option<(Ring, Obs)>
    requires |p| < MAX_PACK_SIZE
  {
    if !Admits(s, |p|) then Some((s, Rejected))
    else if InBounds(s, |p|) then Some((Push(s, p), Accepted))
    else None
  }

  /** One operation; None where the source would read or write outside its buffer. */
  function Step(s: Ring, op: Op): Option<(Ring, Obs)> {
    match op
    case PushOp(p) => PushStep(s, p)
    case PopOp =>
      if s.rb >= s.wb then Some((s, Waiting))
      else (match Pop(s) case None => None case Some(x) => Some((x.1, Popped(x.0))))
    case PeekOp => (match Peek(s) case None => None case Some(x) => Some((x.1, Length(x.0))))
    case ResetOp => Some((Reset(s), Cleared))
  }

  function Run(s: Ring, ops: seq<Op>): (r: Option<(Ring, seq<Obs>)>)
    ensures r.Some? ==> |r.value.1| == |ops|
    decreases |ops|
  {
    if ops == [] then Some((s, []))
    else
      match Step(s, ops[0])
      case None => None
      case Some(x) =>
        match Run(x.0, ops[1..])
        case None => None
        case Some(y) => Some((y.0, [x.1] + y.1))
  }

  // ----- The ideal queue -----

  /** No bound, a bound on the number of packets, or the code's own test on the bytes queued. */
  datatype Capacity = Unbounded | AtMost(n: nat) | Bytes(n: nat)

  predicate Free(cap: Capacity, q: seq<Packet>, p: Packet) {
    match cap
    case Unbounded => true
    case AtMost(n) => |q| < n
    case Bytes(n) => |Encode(q)| + 2 * |p| + 2 * (PACK_LEN_SIZE - 1) <= n
  }

  function IdealStep(cap: Capacity, q: seq<Packet>, op: Op): (seq<Packet>, Obs) {
    match op
    case PushOp(p) => if Free(cap, q, p) then (q + [p], Accepted) else (q, Rejected)
    case PopOp => if q == [] then (q, Waiting) else (q[1..], Popped(q[0]))
    case PeekOp => (q, Length(if q == [] then 0 else |q[0]|))
    case ResetOp => ([], Cleared)
  }

  function IdealRun(cap: Capacity, q: seq<Packet>, ops: seq<Op>): (seq<Packet>, seq<Obs>)
    decreases |ops|
  {
    if ops == [] then (q, [])
    else
      var x := IdealStep(cap, q, ops[0]);
      var y := IdealRun(cap, x.0, ops[1..]);
      (y.0, [x.1] + y.1)
  }

  /** The ring did what the ideal queue does: same answers to every call, and what is left in
      the buffer is what is left in the queue. */
  ghost predicate Agrees(r: Option<(Ring, seq<Obs>)>, ideal: (seq<Packet>, seq<Obs>)) {
    r.Some? && r.value.1 == ideal.1 && exists v :: Rep(r.value.0, v) && v.Contents() == ideal.0
  }

  // ----- First in, first out: what the ideal queue promises about histories -----

  /** Packets accepted since the last Reset. */
  function AcceptedSince(ops: seq<Op>, obs: seq<Obs>, sofar: seq<Packet>): seq<Packet>
    requires |ops| == |obs|
    decreases |ops|
  {
    if ops == [] then sofar
    else AcceptedSince(ops[1..], obs[1..],
      if ops[0].ResetOp? then [] else if ops[0].PushOp? && obs[0] == Accepted then sofar + [ops[0].p] else sofar)
  }

  /** Packets popped since the last Reset. */
  function PoppedSince(ops: seq<Op>, obs: seq<Obs>, sofar: seq<seq<byte>>): seq<seq<byte>>
    requires |ops| == |obs|
    decreases |ops|
  {
    if ops == [] then sofar
    else PoppedSince(ops[1..], obs[1..],
      if ops[0].ResetOp? then [] else if obs[0].Popped? then sofar + [obs[0].p] else sofar)
  }

  lemma {:induction false} IdealHistory(cap: Capacity, q: seq<Packet>, ops: seq<Op>,
      pushed: seq<Packet>, popped: seq<seq<byte>>)
    requires pushed == popped + q
    ensures var run := IdealRun(cap, q, ops);
      |run.1| == |ops| && AcceptedSince(ops, run.1, pushed) == PoppedSince(ops, run.1, popped) + run.0
    decreases |ops|
  {
    if ops != [] {
      var x := IdealStep(cap, q, ops[0]);
      var pushed' := if ops[0].ResetOp? then []
        else if ops[0].PushOp? && x.1 == Accepted then pushed + [ops[0].p] else pushed;
      var popped' := if ops[0].ResetOp? then [] else if x.1.Popped? then popped + [x.1.p] else popped;
      assert pushed' == popped' + x.0;
      IdealHistory(cap, x.0, ops[1..], pushed', popped');
      var run := IdealRun(cap, q, ops);
      assert run.1[0] == x.1 && run.1[1..] == IdealRun(cap, x.0, ops[1..]).1;
    }
  }

  // ----- Regime 1: bounded lengths with headroom -----

  /** The push is made only when the queued bytes, this packet, the longest packet and three
      bytes fit together. */
  predicate Headroom(n: nat, m: nat, used: nat, len: nat) {
    len <= m && used + len + m + 3 <= n
  }

  /** A caller that tracks the queue and respects the headroom. */
  predicate RespectsHeadroom(n: nat, m: nat, q: seq<Packet>, ops: seq<Op>)
    decreases |ops|
  {
    ops == [] ||
    ((ops[0].PushOp? ==> Headroom(n, m, |Encode(q)|, |ops[0].p|)) &&
     RespectsHeadroom(n, m, IdealStep(Unbounded, q, ops[0]).0, ops[1..]))
  }

  ghost predicate BoundedRep(s: Ring, v: View, m: nat) {
    Rep(s, v) && (v.Wrapped? ==> |s.buf| - v.e <= m + 1)
  }

  lemma HeadroomGivesRoom(s: Ring, v: View, m: nat, len: nat)
    requires BoundedRep(s, v, m) && Headroom(|s.buf|, m, s.wb - s.rb, len)
    ensures Admits(s, len) && Room(s, v, len)
  {
    if v.Wrapped? {
      EncodeAppends(v.q1, v.q2);
    }
  }

  lemma BoundedStep(s: Ring, v: View, m: nat, op: Op) returns (v': View)
    requires BoundedRep(s, v, m)
    requires op.PushOp? ==> Headroom(|s.buf|, m, |Encode(v.Contents())|, |op.p|)
    ensures Step(s, op).Some? && BoundedRep(Step(s, op).value.0, v', m)
    ensures |Step(s, op).value.0.buf| == |s.buf|
    ensures (v'.Contents(), Step(s, op).value.1) == IdealStep(Unbounded, v.Contents(), op)
  {
    match op
    case PushOp(p) =>
      BoundedPush(s, v, m, p);
      v' := PushView(s, v, p);
    case PopOp =>
      BoundedPop(s, v, m);
      v' := if v.Contents() == [] then v else PopView(v);
    case PeekOp =>
      BoundedPeek(s, v, m);
      v' := PeekView(v);
    case ResetOp =>
      v' := Linear([]);
  }

  lemma BoundedPush(s: Ring, v: View, m: nat, p: Packet)
    requires BoundedRep(s, v, m) && Headroom(|s.buf|, m, |Encode(v.Contents())|, |p|)
    ensures Step(s, PushOp(p)) == Some((Push(s, p), Accepted))
    ensures BoundedRep(Push(s, p), PushView(s, v, p), m) && |Push(s, p).buf| == |s.buf|
    ensures PushView(s, v, p).Contents() == v.Contents() + [p]
  {
    HeadroomGivesRoom(s, v, m, |p|);
    PushRefines(s, v, p);
  }

  lemma BoundedPop(s: Ring, v: View, m: nat)
    requires BoundedRep(s, v, m)
    ensures v.Contents() == [] ==> Step(s, PopOp) == Some((s, Waiting))
    ensures Step(s, PopOp).Some?
    ensures v.Contents() != [] ==> Step(s, PopOp).value.1 == Popped(v.Contents()[0])
    ensures v.Contents() != [] ==> BoundedRep(Step(s, PopOp).value.0, PopView(v), m)
    ensures v.Contents() != [] ==> PopView(v).Contents() == v.Contents()[1..]
    ensures Step(s, PopOp).value.0.buf == s.buf
  {
    NotEmpty(s, v);
    if v.Contents() != [] {
      PopRefines(s, v);
      PopKeepsBuffer(s);
    }
  }

  lemma PopKeepsBuffer(s: Ring)
    requires s.rb < s.wb && Pop(s).Some?
    ensures Pop(s).value.1.buf == s.buf
  {
  }

  lemma BoundedPeek(s: Ring, v: View, m: nat)
    requires BoundedRep(s, v, m)
    ensures Step(s, PeekOp).Some? && BoundedRep(Step(s, PeekOp).value.0, PeekView(v), m)
    ensures Step(s, PeekOp).value.0.buf == s.buf && PeekView(v).Contents() == v.Contents()
    ensures Step(s, PeekOp).value.1 == Length(if v.Contents() == [] then 0 else |v.Contents()[0]|)
  {
    PeekRefines(s, v);
  }

  lemma {:induction false} BoundedRun(s: Ring, v: View, m: nat, ops: seq<Op>)
    requires BoundedRep(s, v, m) && RespectsHeadroom(|s.buf|, m, v.Contents(), ops)
    ensures Agrees(Run(s, ops), IdealRun(Unbounded, v.Contents(), ops))
    decreases |ops|
  {
    if ops != [] {
      var v' := BoundedStep(s, v, m, ops[0]);
      BoundedRun(Step(s, ops[0]).value.0, v', m, ops[1..]);
    }
  }

  /** Bounded lengths: for every buffer, bound and run in which each push keeps the headroom, the
      ring is a queue that accepts every push and returns each packet byte for byte. */
  lemma BoundedRefinement(buf: seq<byte>, m: nat, ops: seq<Op>)
    requires RespectsHeadroom(|buf|, m, [], ops)
    ensures Agrees(Run(Fresh(buf), ops), IdealRun(Unbounded, [], ops))
  {
    BoundedRun(Fresh(buf), Linear([]), m, ops);
  }

  // ----- The headroom is exact, and the code's own test does not replace it -----

  function Filled(n: nat): (b: seq<byte>)
    ensures |b| == n
  {
    seq(n, _ => 0)
  }

  /** A short packet in and out, then one of the greatest length. */
  function TightRun(m: nat): seq<Op>
    requires 2 <= m < MAX_PACK_SIZE
  {
    [PushOp(Filled(m - 1)), PopOp, PushOp(Filled(m - 1) + [1]), PopOp]
  }

  lemma IdealCons(cap: Capacity, q: seq<Packet>, op: Op, rest: seq<Op>)
    ensures var x := IdealStep(cap, q, op); var y := IdealRun(cap, x.0, rest);
      IdealRun(cap, q, [op] + rest) == (y.0, [x.1] + y.1)
  {
    assert ([op] + rest)[1..] == rest;
  }

  lemma RunFour(s: Ring, s1: Ring, s2: Ring, s3: Ring, s4: Ring, ops: seq<Op>, obs: seq<Obs>)
    requires |ops| == |obs| == 4
    requires Step(s, ops[0]) == Some((s1, obs[0])) && Step(s1, ops[1]) == Some((s2, obs[1]))
    requires Step(s2, ops[2]) == Some((s3, obs[2])) && Step(s3, ops[3]) == Some((s4, obs[3]))
    ensures Run(s, ops) == Some((s4, obs))
  {
    assert ops[4..] == [] && obs[4..] == [];
    RunFrom(s3, s4, s4, ops, obs, 3);
    RunFrom(s2, s3, s4, ops, obs, 2);
    RunFrom(s1, s2, s4, ops, obs, 1);
    RunFrom(s, s1, s4, ops, obs, 0);
    assert ops[0..] == ops && obs[0..] == obs;
  }

  lemma RunFrom(s: Ring, next: Ring, end: Ring, ops: seq<Op>, obs: seq<Obs>, i: nat)
    requires |ops| == |obs| && i < |ops|
    requires Step(s, ops[i]) == Some((next, obs[i]))
    requires Run(next, ops[i + 1..]) == Some((end, obs[i + 1..]))
    ensures Run(s, ops[i..]) == Some((end, obs[i..]))
  {
    assert ops[i..][1..] == ops[i + 1..];
    assert obs[i..] == [obs[i]] + obs[i + 1..];
  }

  lemma IdealTwice(a: Packet, b: Packet)
    ensures IdealRun(Unbounded, [], [PushOp(a), PopOp, PushOp(b), PopOp]) ==
      ([], [Accepted, Popped(a), Accepted, Popped(b)])
  {
    var ops := [PushOp(a), PopOp, PushOp(b), PopOp];
    assert ops == [PushOp(a)] + ([PopOp] + ([PushOp(b)] + ([PopOp] + [])));
    assert [] + [a] == [a] && [] + [b] == [b] && [a][1..] == [] && [b][1..] == [];
    IdealCons(Unbounded, [b], PopOp, []);
    IdealCons(Unbounded, [], PushOp(b), [PopOp] + []);
    IdealCons(Unbounded, [a], PopOp, [PushOp(b)] + ([PopOp] + []));
    IdealCons(Unbounded, [], PushOp(a), [PopOp] + ([PushOp(b)] + ([PopOp] + [])));
    assert [Accepted, Popped(a), Accepted, Popped(b)] ==
      [Accepted] + ([Popped(a)] + ([Accepted] + ([Popped(b)] + [])));
  }

  /** An empty ring standing at m+1 in 2m+2 bytes: the next packet of length m is admitted, wraps,
      and overwrites the marker that sends the reader to it. */
  lemma MarkerOverwritten(s: Ring, m: nat) returns (t: Ring, u: Ring, x: seq<byte>)
    requires 2 <= m < MAX_PACK_SIZE && |s.buf| == 2 * m + 2
    requires s.r == s.w == m + 1 && s.rb == s.wb
    ensures Step(s, PushOp(Filled(m - 1) + [1])) == Some((t, Accepted))
    ensures Step(t, PopOp) == Some((u, Popped(x))) && |x| == 1
  {
    var p := Filled(m - 1) + [1];
    t := Push(s, p);
    var marked := Marked(s, m);
    assert marked[m + 2] == 0;
    assert t.buf == Write(marked, 0, WordBytes(m) + p);
    assert t.buf[m + 1] == (WordBytes(m) + p)[m + 1] == p[m - 1] == 1;
    assert t.buf[m + 2] == marked[m + 2];
    assert Word(t.buf, m + 1) == 1;
    PopTakes(t, m + 1, 1);
    x, u := Pop(t).value.0, Pop(t).value.1;
  }

  /** Pushing and popping one packet on a fresh ring. */
  lemma InAndOut(buf: seq<byte>, a: Packet) returns (s1: Ring, s2: Ring)
    requires 2 * |a| + 2 <= |buf|
    ensures Step(Fresh(buf), PushOp(a)) == Some((s1, Accepted)) && Step(s1, PopOp) == Some((s2, Popped(a)))
    ensures s2.r == s2.w == |a| + 2 && s2.rb == s2.wb && |s2.buf| == |buf|
  {
    var s := Fresh(buf);
    PushRefines(s, Linear([]), a);
    assert [] + [a] == [a];
    s1 := Push(s, a);
    PopRefines(s1, Linear([a]));
    s2 := Pop(s1).value.1;
  }

  lemma TightRunMisreads(buf: seq<byte>, m: nat) returns (end: Ring, x: seq<byte>)
    requires 2 <= m < MAX_PACK_SIZE && |buf| == 2 * m + 2
    ensures Run(Fresh(buf), TightRun(m)) == Some((end, [Accepted, Popped(Filled(m - 1)), Accepted, Popped(x)]))
    ensures |x| == 1
  {
    var a: Packet := Filled(m - 1);
    var s1, s2 := InAndOut(buf, a);
    var s3;
    s3, end, x := MarkerOverwritten(s2, m);
    RunFour(Fresh(buf), s1, s2, s3, end, TightRun(m), [Accepted, Popped(a), Accepted, Popped(x)]);
  }

  /** With one byte of headroom less the refinement fails, at every bound of two or more. All
      pushes of the failing run pass the code's own test. */
  lemma HeadroomIsTight(buf: seq<byte>, m: nat)
    requires 2 <= m < MAX_PACK_SIZE && |buf| == 2 * m + 2
    ensures RespectsHeadroom(|buf| + 1, m, [], TightRun(m))
    ensures Run(Fresh(buf), TightRun(m)).Some?
    ensures Rejected !in Run(Fresh(buf), TightRun(m)).value.1
    ensures !Agrees(Run(Fresh(buf), TightRun(m)), IdealRun(Unbounded, [], TightRun(m)))
  {
    var end, x := TightRunMisreads(buf, m);
    IdealTwice(Filled(m - 1), Filled(m - 1) + [1]);
    TightRunKeepsWeakHeadroom(m, Filled(m - 1), Filled(m - 1) + [1]);
    assert [Accepted, Popped(Filled(m - 1)), Accepted, Popped(x)][3] !=
      [Accepted, Popped(Filled(m - 1)), Accepted, Popped(Filled(m - 1) + [1])][3];
  }

  lemma TightRunKeepsWeakHeadroom(m: nat, a: Packet, b: Packet)
    requires 2 <= m < MAX_PACK_SIZE && |a| == m - 1 && |b| == m
    ensures RespectsHeadroom(2 * m + 3, m, [], [PushOp(a), PopOp, PushOp(b), PopOp])
  {
    var ops := [PushOp(a), PopOp, PushOp(b), PopOp];
    assert ops[1..] == [PopOp, PushOp(b), PopOp];
    assert ops[1..][1..] == [PushOp(b), PopOp];
    assert ops[1..][1..][1..] == [PopOp];
    assert ([] + [a])[1..] == [];
    assert RespectsHeadroom(2 * m + 3, m, [] + [b], [PopOp]);
    assert RespectsHeadroom(2 * m + 3, m, [], [PushOp(b), PopOp]);
    assert RespectsHeadroom(2 * m + 3, m, [] + [a], [PopOp, PushOp(b), PopOp]);
  }
}
