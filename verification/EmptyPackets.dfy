/** Runs of nothing but empty packets. The first one zeroes the word at offset 0, to which every
    later zero word sends the reader, so each is read back; the ring is a bounded queue of them. */
module EmptyPackets {
  import opened Bytes
  import opened FixedLength
  import opened QueueRuns
  import opened Ring
  import opened Wrappers

  datatype EmptyOp = PushEmpty | PopEmpty | PeekEmpty | ResetEmpty

  function EmptyStep(s: Ring, op: EmptyOp): Option<(Ring, Obs)> {
    match op
    case PushEmpty => PushStep(s, [])
    case PopEmpty => Step(s, PopOp)
    case PeekEmpty => Step(s, PeekOp)
    case ResetEmpty => Step(s, ResetOp)
  }

  function EmptyRun(s: Ring, ops: seq<EmptyOp>): Option<(Ring, seq<Obs>)>
    decreases |ops|
  {
    if ops == [] then Some((s, []))
    else
      match EmptyStep(s, ops[0])
      case None => None
      case Some(x) =>
        match EmptyRun(x.0, ops[1..])
        case None => None
        case Some(y) => Some((y.0, [x.1] + y.1))
  }

  /** A queue of empty packets is their number. A peek cannot tell an empty packet from none. */
  function CountStep(cap: nat, n: nat, op: EmptyOp): (nat, Obs) {
    match op
    case PushEmpty => if n < cap then (n + 1, Accepted) else (n, Rejected)
    case PopEmpty => if n == 0 then (0, Waiting) else (n - 1, Popped([]))
    case PeekEmpty => (n, Length(0))
    case ResetEmpty => (0, Cleared)
  }

  function CountRun(cap: nat, n: nat, ops: seq<EmptyOp>): (nat, seq<Obs>)
    decreases |ops|
  {
    if ops == [] then (n, [])
    else
      var x := CountStep(cap, n, ops[0]);
      var y := CountRun(cap, x.0, ops[1..]);
      (y.0, [x.1] + y.1)
  }

  /** Where the writer stands after pushes of `wb` bytes of zero words. */
  predicate EvenWriter(s: Ring) {
    && s.w % 2 == 0 && s.w <= |s.buf|
    && (s.wb == 0 ==> s.w == 0) && (s.wb > 0 ==> s.w >= 2) && (s.wb == 2 ==> s.w == 2)
  }

  /** The words the reader meets are 0 once they have been written. */
  predicate ZeroWords(s: Ring) {
    && (s.wb >= 2 ==> |s.buf| >= 2 && Word(s.buf, 0) == 0)
    && (s.wb >= 4 && |s.buf| >= 4 ==> Word(s.buf, 2) == 0)
  }

  predicate HoldsEmpty(s: Ring, n: nat) {
    && s.wb == s.rb + 2 * n && s.rb % 2 == 0
    && (s.r == 0 || (s.r == 2 && s.rb >= 2)) && s.r <= |s.buf|
    && EvenWriter(s) && ZeroWords(s)
  }

  /** A zero word at an even place makes no zero word of the first two nonzero. */
  lemma ZeroWordKeeps(buf: seq<byte>, at: nat, k: nat)
    requires at % 2 == k % 2 == 0 && at + 2 <= |buf| && k + 2 <= |buf|
    requires at == k || Word(buf, k) == 0
    ensures Word(Write(buf, at, WordBytes(0)), k) == 0
  {
    if at != k {
      WriteSpares(buf, at, WordBytes(0), k, k + 2);
      WordOfSlice(buf, k);
      WordOfSlice(Write(buf, at, WordBytes(0)), k);
    }
  }

  lemma PushesEmpty(s: Ring, n: nat)
    requires HoldsEmpty(s, n) && Admits(s, 0)
    ensures InBounds(s, 0) && HoldsEmpty(Push(s, []), n + 1) && |Push(s, []).buf| == |s.buf|
  {
    var at := Slot(s, 0);
    assert WordBytes(0) + [] == WordBytes(0);
    assert Push(s, []) == Ring(Write(s.buf, at, WordBytes(0)), s.r, at + 2, s.rb, s.wb + 2);
    ZeroWordKeeps(s.buf, at, 0);
    if |s.buf| >= 4 && s.wb >= 2 {
      ZeroWordKeeps(s.buf, at, 2);
    }
  }

  /** The reader is sent to 0 and finds length 0 there. */
  lemma HeaderIsFirst(s: Ring, n: nat)
    requires HoldsEmpty(s, n) && n > 0
    ensures NextHeader(s) == Some(0) && Word(s.buf, 0) == 0
  {
  }

  lemma PopsEmpty(s: Ring, n: nat)
    requires HoldsEmpty(s, n) && n > 0
    ensures Step(s, PopOp) == Some((s.(r := 2, rb := s.rb + 2), Popped([])))
    ensures HoldsEmpty(s.(r := 2, rb := s.rb + 2), n - 1)
  {
    HeaderIsFirst(s, n);
    PopTakes(s, 0, 0);
    assert s.buf[2..2] == [];
  }

  lemma PeeksEmpty(s: Ring, n: nat)
    requires HoldsEmpty(s, n)
    ensures Step(s, PeekOp) == Some((if n == 0 then s else s.(r := 0), Length(0)))
  {
    if n > 0 {
      HeaderIsFirst(s, n);
    }
  }

  /** The step answers as the count does, and leaves as many packets. */
  ghost predicate EmptyAgrees(s: Ring, n: nat, op: EmptyOp) {
    var r, x := EmptyStep(s, op), CountStep(SlotCapacity(|s.buf|, 0), n, op);
    r.Some? && |r.value.0.buf| == |s.buf| && r.value.1 == x.1 && HoldsEmpty(r.value.0, x.0)
  }

  lemma EmptyAdmission(s: Ring, n: nat)
    requires HoldsEmpty(s, n)
    ensures Admits(s, 0) <==> n < SlotCapacity(|s.buf|, 0)
  {
    assert SlotCapacity(|s.buf|, 0) == |s.buf| / 2;
  }

  lemma PushEmptyAgrees(s: Ring, n: nat)
    requires HoldsEmpty(s, n)
    ensures EmptyAgrees(s, n, PushEmpty)
  {
    EmptyAdmission(s, n);
    if Admits(s, 0) {
      PushesEmpty(s, n);
    }
  }

  lemma PopEmptyAgrees(s: Ring, n: nat)
    requires HoldsEmpty(s, n)
    ensures EmptyAgrees(s, n, PopEmpty)
  {
    if n > 0 {
      PopsEmpty(s, n);
    }
  }

  lemma PeekEmptyAgrees(s: Ring, n: nat)
    requires HoldsEmpty(s, n)
    ensures EmptyAgrees(s, n, PeekEmpty)
  {
    PeeksEmpty(s, n);
  }

  lemma EmptyStepCounts(s: Ring, n: nat, op: EmptyOp)
    requires HoldsEmpty(s, n)
    ensures EmptyAgrees(s, n, op)
  {
    match op
    case PushEmpty => PushEmptyAgrees(s, n);
    case PopEmpty => PopEmptyAgrees(s, n);
    case PeekEmpty => PeekEmptyAgrees(s, n);
    case ResetEmpty =>
  }

  lemma {:induction false} EmptyRunCounts(s: Ring, n: nat, ops: seq<EmptyOp>)
    requires HoldsEmpty(s, n)
    ensures EmptyRun(s, ops).Some?
    ensures var x := CountRun(SlotCapacity(|s.buf|, 0), n, ops);
      EmptyRun(s, ops).value.1 == x.1 && HoldsEmpty(EmptyRun(s, ops).value.0, x.0)
    decreases |ops|
  {
    if ops != [] {
      EmptyStepCounts(s, n, ops[0]);
      EmptyRunCounts(EmptyStep(s, ops[0]).value.0, CountStep(SlotCapacity(|s.buf|, 0), n, ops[0]).0, ops[1..]);
    }
  }

  /** Empty packets only: for every buffer and run, the ring answers every call as a queue of the
      slot capacity for length 0 does, and its counters hold two bytes for each packet queued. */
  lemma EmptyPacketsRefinement(buf: seq<byte>, ops: seq<EmptyOp>)
    ensures EmptyRun(Fresh(buf), ops).Some?
    ensures var run := EmptyRun(Fresh(buf), ops).value; var ideal := CountRun(SlotCapacity(|buf|, 0), 0, ops);
      run.1 == ideal.1 && run.0.wb - run.0.rb == 2 * ideal.0
  {
    EmptyRunCounts(Fresh(buf), 0, ops);
  }

  // ----- Behind another packet -----

  /** A packet of length 0 is stored as a wrap marker: the reader goes back to the start and
      returns what it finds there, here the packet it has just returned. */
  lemma ZeroLengthMisread(buf: seq<byte>, x: byte)
    requires |buf| >= 5
    ensures var t := Push(Push(Fresh(buf), [x]), []);
      t.rb < t.wb && Pop(t).Some? && Pop(t).value.0 == [x] &&
      Pop(t).value.1.rb < t.wb && Pop(Pop(t).value.1).Some? && Pop(Pop(t).value.1).value.0 == [x]
  {
    var s := Push(Fresh(buf), [x]);
    var t := Push(s, []);
    assert s.buf == Write(buf, 0, WordBytes(1) + [x]);
    assert t.buf == Write(s.buf, 3, WordBytes(0) + []);
    assert Word(t.buf, 0) == 1 && Word(t.buf, 3) == 0 && t.buf[2..3] == [x];
  }
}
