/** Satellite coverage: what a report stores, what comes back from the table, and which beam
    SendMessage picks. SNR is an exact real; reading it back passes through an int32 parameter
    (src/logic/protocol.h:88), which cuts the fraction off. */
module Beams {
  import opened Wrappers

  const MAX_BEAM_NUM: nat := 10

  datatype SateParam = SateParam(sate: int, beam: int, snr: real)

  /** A row of sate_cover: the SNR of beams 1..10. */
  type Cover = c: seq<real> | |c| == MAX_BEAM_NUM witness seq(10, _ => -1.0)

  predicate KnownBeams(report: seq<SateParam>) {
    forall i :: 0 <= i < |report| ==> 1 <= report[i].beam <= MAX_BEAM_NUM
  }

  function NoCover(): Cover {
    seq(MAX_BEAM_NUM, _ => -1.0)
  }

  // ----- Storing a report -----

  /** The last entry of a beam wins; beams not in the report are stored as -1. */
  function CoverOf(report: seq<SateParam>): (c: Cover)
    requires KnownBeams(report)
    decreases |report|
  {
    if report == [] then NoCover()
    else
      var last := report[|report| - 1];
      CoverOf(report[..|report| - 1])[last.beam - 1 := last.snr]
  }

  method UpdateSateCover(report: seq<SateParam>) returns (snrs: seq<real>)
    requires KnownBeams(report)
    ensures snrs == CoverOf(report)
  {
    snrs := NoCover();
    for i := 0 to |report|
      invariant snrs == CoverOf(report[..i])
    {
      assert report[..i + 1][..i] == report[..i];
      snrs := snrs[report[i].beam - 1 := report[i].snr];
    }
    assert report[..|report|] == report;
  }

  /** Entry `i` is the last of the report for its beam. */
  predicate LastFor(report: seq<SateParam>, i: nat) {
    i < |report| && forall j :: i < j < |report| ==> report[j].beam != report[i].beam
  }

  /** What is stored for a beam is the SNR of its last entry in the report. */
  lemma {:induction false} CoverOfLast(report: seq<SateParam>, i: nat)
    requires KnownBeams(report) && LastFor(report, i)
    ensures CoverOf(report)[report[i].beam - 1] == report[i].snr
    decreases |report|
  {
    var n := |report| - 1;
    if i < n {
      assert report[n].beam != report[i].beam;
      CoverOfLast(report[..n], i);
    }
  }

  /** A beam the report does not mention is stored as -1, whatever was stored before. */
  lemma {:induction false} CoverOfAbsent(report: seq<SateParam>, b: int)
    requires KnownBeams(report) && 1 <= b <= MAX_BEAM_NUM
    requires forall i :: 0 <= i < |report| ==> report[i].beam != b
    ensures CoverOf(report)[b - 1] == -1.0
    decreases |report|
  {
    if report != [] {
      CoverOfAbsent(report[..|report| - 1], b);
    }
  }

  /** The last entry of a beam in a report, if it has one. */
  lemma {:induction false} LastEntry(report: seq<SateParam>, b: int) returns (i: int)
    ensures -1 <= i < |report|
    ensures i == -1 ==> forall j :: 0 <= j < |report| ==> report[j].beam != b
    ensures i >= 0 ==> LastFor(report, i) && report[i].beam == b
    decreases |report|
  {
    i := -1;
    if report != [] {
      var n := |report| - 1;
      if report[n].beam == b {
        i := n;
      } else {
        i := LastEntry(report[..n], b);
      }
    }
  }

  /** A positive stored SNR was reported, last, for that beam. */
  lemma PositiveWasReported(report: seq<SateParam>, b: int) returns (i: nat)
    requires KnownBeams(report) && 1 <= b <= MAX_BEAM_NUM && CoverOf(report)[b - 1] > 0.0
    ensures LastFor(report, i) && report[i].beam == b && report[i].snr > 0.0
  {
    var j := LastEntry(report, b);
    if j < 0 {
      CoverOfAbsent(report, b);
      assert false;
    }
    i := j;
    CoverOfLast(report, i);
  }

  // ----- Reading coverage back -----

  function ReadBack(c: Cover, b: int): SateParam
    requires 1 <= b <= MAX_BEAM_NUM
  {
    SateParam((b + 1) / 2, b, c[b - 1].Floor as real)
  }

  function CoverFrom(c: Cover, b: int): seq<SateParam>
    requires 1 <= b <= MAX_BEAM_NUM + 1
    decreases MAX_BEAM_NUM + 1 - b
  {
    if b == MAX_BEAM_NUM + 1 then []
    else if c[b - 1] > 0.0 then [ReadBack(c, b)] + CoverFrom(c, b + 1)
    else CoverFrom(c, b + 1)
  }

  function SateCover(c: Cover): seq<SateParam> {
    CoverFrom(c, 1)
  }

  /** Every entry is a beam from `b` on with positive SNR, in its read-back form. */
  predicate AllPositive(c: Cover, b: int, r: seq<SateParam>) {
    forall i :: 0 <= i < |r| ==> Positive(c, b, r[i])
  }

  predicate Positive(c: Cover, b: int, x: SateParam) {
    1 <= x.beam && b <= x.beam <= MAX_BEAM_NUM && c[x.beam - 1] > 0.0 && x == ReadBack(c, x.beam)
  }

  predicate Increasing(r: seq<SateParam>) {
    forall i, j :: 0 <= i < j < |r| ==> r[i].beam < r[j].beam
  }

  lemma {:induction false} CoverFromIsSound(c: Cover, b: int)
    requires 1 <= b <= MAX_BEAM_NUM + 1
    ensures AllPositive(c, b, CoverFrom(c, b)) && Increasing(CoverFrom(c, b))
    decreases MAX_BEAM_NUM + 1 - b
  {
    if b <= MAX_BEAM_NUM {
      CoverFromIsSound(c, b + 1);
      var rest := CoverFrom(c, b + 1);
      assert forall i :: 0 <= i < |rest| ==> Positive(c, b + 1, rest[i]);
    }
  }

  lemma {:induction false} CoverFromIsComplete(c: Cover, b: int, x: int)
    requires 1 <= b <= x <= MAX_BEAM_NUM && c[x - 1] > 0.0
    ensures ReadBack(c, x) in CoverFrom(c, b)
    decreases x - b
  {
    if b < x {
      CoverFromIsComplete(c, b + 1, x);
    } else {
      assert CoverFrom(c, b)[0] == ReadBack(c, x);
    }
  }

  lemma PositiveFields(c: Cover, x: SateParam)
    requires Positive(c, 1, x)
    ensures 1 <= x.beam <= 10 && c[x.beam - 1] > 0.0
    ensures x.sate == (x.beam + 1) / 2 && x.snr == c[x.beam - 1].Floor as real
  {
  }

  /** Exactly the beams of positive SNR come back, in strictly increasing beam order. Beams 2s - 1
    and 2s belong to satellite s, and the SNR is cut to a whole number. */
  lemma ReadBackExact(c: Cover, x: SateParam)
    ensures Increasing(SateCover(c))
    ensures x in SateCover(c) <==>
      1 <= x.beam <= 10 && c[x.beam - 1] > 0.0 &&
      2 * x.sate - 1 <= x.beam <= 2 * x.sate && x.snr == c[x.beam - 1].Floor as real
  {
    CoverFromIsSound(c, 1);
    if 1 <= x.beam <= MAX_BEAM_NUM && c[x.beam - 1] > 0.0 && x == ReadBack(c, x.beam) {
      CoverFromIsComplete(c, 1, x.beam);
    }
    if x in SateCover(c) {
      var i :| 0 <= i < |SateCover(c)| && SateCover(c)[i] == x;
      PositiveFields(c, SateCover(c)[i]);
    }
  }

  /** In strictly increasing order, an entry for each positive SNR of the row and for no other beam,
      with satellite (b + 1) / 2 for beam b and the SNR cut to a whole number. */
  ghost predicate IsCoverage(c: Cover, r: seq<SateParam>) {
    && Increasing(r)
    && (forall i :: 0 <= i < |r| ==> 1 <= r[i].beam <= 10 && c[r[i].beam - 1] > 0.0)
    && (forall i :: 0 <= i < |r| ==> r[i].sate == (r[i].beam + 1) / 2 && r[i].snr == c[r[i].beam - 1].Floor as real)
    && (forall k :: 0 <= k < 10 && c[k] > 0.0 ==> exists i :: 0 <= i < |r| && r[i].beam == k + 1)
  }

  lemma ComesBack(c: Cover, k: int)
    requires 0 <= k < 10 && c[k] > 0.0
    ensures exists i :: 0 <= i < |SateCover(c)| && SateCover(c)[i].beam == k + 1
  {
    CoverFromIsComplete(c, 1, k + 1);
    var i :| 0 <= i < |SateCover(c)| && SateCover(c)[i] == ReadBack(c, k + 1);
  }

  lemma ReadBackFields(c: Cover)
    ensures IsCoverage(c, SateCover(c))
  {
    var r := SateCover(c);
    CoverFromIsSound(c, 1);
    forall i | 0 <= i < |r|
      ensures 1 <= r[i].beam <= 10 && c[r[i].beam - 1] > 0.0
      ensures r[i].sate == (r[i].beam + 1) / 2 && r[i].snr == c[r[i].beam - 1].Floor as real
    {
      PositiveFields(c, r[i]);
    }
    forall k | 0 <= k < 10 && c[k] > 0.0
      ensures exists i :: 0 <= i < |r| && r[i].beam == k + 1
    {
      ComesBack(c, k);
    }
  }

  method GetSateCover(c: Cover) returns (res: seq<SateParam>)
    ensures res == SateCover(c) && IsCoverage(c, res)
  {
    res := [];
    var i := 1;
    while i <= MAX_BEAM_NUM
      invariant 1 <= i <= MAX_BEAM_NUM + 1
      invariant SateCover(c) == res + CoverFrom(c, i)
    {
      var temp := c[i - 1];
      ghost var rest := CoverFrom(c, i + 1);
      if temp > 0.0 {
        var x := SateParam((i + 1) / 2, i, temp.Floor as real);
        assert res + ([x] + rest) == (res + [x]) + rest;
        res := res + [x];
      }
      i := i + 1;
      assert rest == CoverFrom(c, i);
    }
    ReadBackFields(c);
  }

  // ----- Choosing a beam -----

  /** The running maximum of the send loop: a later entry wins only by a greater SNR, and an SNR
      of -1 or less never wins. */
  function Choose(sates: seq<SateParam>, configured: set<int>): (r: Option<SateParam>)
    decreases |sates|
  {
    if sates == [] then None
    else
      var sofar := Choose(sates[..|sates| - 1], configured);
      var last := sates[|sates| - 1];
      if last.snr > (if sofar.Some? then sofar.value.snr else -1.0) && last.beam in configured then Some(last)
      else sofar
  }

  predicate Usable(x: SateParam, configured: set<int>) {
    x.beam in configured && x.snr > -1.0
  }

  ghost predicate FirstBest(sates: seq<SateParam>, configured: set<int>, i: int) {
    && 0 <= i < |sates| && Usable(sates[i], configured)
    && (forall j :: 0 <= j < |sates| && Usable(sates[j], configured) ==> sates[j].snr <= sates[i].snr)
    && (forall j :: 0 <= j < i && Usable(sates[j], configured) ==> sates[j].snr < sates[i].snr)
  }

  /** Nothing usable, or the first usable entry of maximal SNR. */
  lemma {:induction false} ChooseIsFirstBest(sates: seq<SateParam>, configured: set<int>) returns (i: int)
    ensures Choose(sates, configured).None? ==> forall j :: 0 <= j < |sates| ==> !Usable(sates[j], configured)
    ensures Choose(sates, configured).Some? ==>
      FirstBest(sates, configured, i) && sates[i] == Choose(sates, configured).value
    decreases |sates|
  {
    i := 0;
    if sates != [] {
      var n := |sates| - 1;
      var before := sates[..n];
      i := ChooseIsFirstBest(before, configured);
      var sofar := Choose(before, configured);
      assert forall j :: 0 <= j < n ==> sates[j] == before[j];
      if sates[n].snr > (if sofar.Some? then sofar.value.snr else -1.0) && sates[n].beam in configured {
        i := n;
      }
    }
  }

  method SelectBeam(sates: seq<SateParam>, configured: set<int>) returns (r: Option<SateParam>)
    ensures r.None? <==> forall i :: 0 <= i < |sates| ==> !Usable(sates[i], configured)
    ensures r.Some? ==> exists i :: FirstBest(sates, configured, i) && sates[i] == r.value
    ensures r == Choose(sates, configured)
  {
    var curSnr := -1.0;
    r := None;
    for i := 0 to |sates|
      invariant r == Choose(sates[..i], configured)
      invariant curSnr == if r.Some? then r.value.snr else -1.0
    {
      assert sates[..i + 1][..i] == sates[..i];
      if sates[i].snr > curSnr && sates[i].beam in configured {
        curSnr := sates[i].snr;
        r := Some(sates[i]);
      }
    }
    assert sates[..|sates|] == sates;
    var best := ChooseIsFirstBest(sates, configured);
  }

  // ----- Delivery over stored coverage -----

  /** Stored SNR as the sender sees it. */
  function Seen(c: Cover, b: int): int
    requires 1 <= b <= MAX_BEAM_NUM
  {
    c[b - 1].Floor
  }

  predicate Reachable(c: Cover, configured: set<int>, b: int) {
    1 <= b <= MAX_BEAM_NUM && b in configured && c[b - 1] > 0.0
  }

  /** `b` has the greatest whole-number SNR of all reachable beams, and the lowest id among equals. */
  ghost predicate BestSeen(c: Cover, configured: set<int>, b: int) {
    Reachable(c, configured, b) &&
    forall x :: Reachable(c, configured, x) ==> Seen(c, x) < Seen(c, b) || (Seen(c, x) == Seen(c, b) && b <= x)
  }

  lemma ReachableIsUsable(c: Cover, configured: set<int>, b: int)
    requires Reachable(c, configured, b)
    ensures ReadBack(c, b) in SateCover(c) && Usable(ReadBack(c, b), configured)
  {
    ReadBackExact(c, ReadBack(c, b));
  }

  lemma UsableIsReachable(c: Cover, configured: set<int>, x: SateParam)
    requires x in SateCover(c) && Usable(x, configured)
    ensures Reachable(c, configured, x.beam) && x == ReadBack(c, x.beam)
  {
    ReadBackExact(c, x);
  }

  /** A user is sent to iff some configured beam has positive stored SNR; the beam is one of
      maximal whole-number SNR, with the lowest id among those. */
  lemma DeliveryChoice(c: Cover, configured: set<int>)
    ensures Choose(SateCover(c), configured).Some? <==> exists b :: Reachable(c, configured, b)
    ensures Choose(SateCover(c), configured).Some? ==>
      var x := Choose(SateCover(c), configured).value; BestSeen(c, configured, x.beam) && x == ReadBack(c, x.beam)
  {
    var s := SateCover(c);
    var r := Choose(s, configured);
    var i := ChooseIsFirstBest(s, configured);
    if r.Some? {
      UsableIsReachable(c, configured, s[i]);
      forall x | Reachable(c, configured, x)
        ensures Seen(c, x) < Seen(c, s[i].beam) || (Seen(c, x) == Seen(c, s[i].beam) && s[i].beam <= x)
      {
        ReachableIsUsable(c, configured, x);
        var j :| 0 <= j < |s| && s[j] == ReadBack(c, x);
        CoverFromIsSound(c, 1);
        assert s[j].snr <= s[i].snr;
        if j < i {
          assert s[j].snr < s[i].snr;
        }
      }
    } else {
      forall b | Reachable(c, configured, b)
        ensures false
      {
        ReachableIsUsable(c, configured, b);
      }
    }
  }

  /** No reachable beam had a greater SNR reported than `b`. */
  ghost predicate BestReported(c: Cover, configured: set<int>, b: int)
    requires 1 <= b <= MAX_BEAM_NUM
  {
    forall x :: Reachable(c, configured, x) ==> c[x - 1] <= c[b - 1]
  }

  /** The reachable beam of greatest reported SNR, the lowest id among equals. */
  ghost predicate Strongest(c: Cover, configured: set<int>, t: int) {
    Reachable(c, configured, t) &&
    forall x :: Reachable(c, configured, x) ==> c[x - 1] < c[t - 1] || (c[x - 1] == c[t - 1] && t <= x)
  }

  /** Whenever some beam is reachable, one is the strongest. */
  lemma StrongestExists(c: Cover, configured: set<int>, b: int) returns (t: int)
    requires Reachable(c, configured, b)
    ensures Strongest(c, configured, t)
  {
    t := b;
    for i := 1 to MAX_BEAM_NUM + 1
      invariant Reachable(c, configured, t)
      invariant forall x :: 1 <= x < i && Reachable(c, configured, x) ==>
        c[x - 1] < c[t - 1] || (c[x - 1] == c[t - 1] && t <= x)
    {
      if Reachable(c, configured, i) && (c[i - 1] > c[t - 1] || (c[i - 1] == c[t - 1] && i < t)) {
        t := i;
      }
    }
  }

  lemma StrongestDecides(c: Cover, configured: set<int>, t: int)
    requires Strongest(c, configured, t)
    ensures Choose(SateCover(c), configured).Some?
    ensures var b := Choose(SateCover(c), configured).value.beam;
      1 <= b <= MAX_BEAM_NUM && (BestReported(c, configured, b) <==> WholePartsDiffer(c, configured, t)) &&
      (b == t <==> WholePartsDiffer(c, configured, t))
  {
    DeliveryChoice(c, configured);
    var b := Choose(SateCover(c), configured).value.beam;
    assert BestSeen(c, configured, b);
    FloorOrders(c[b - 1], c[t - 1]);
    assert Seen(c, b) == Seen(c, t) && b <= t;
  }

  /** Every reachable beam of lower id than `t` has a smaller whole part. */
  ghost predicate WholePartsDiffer(c: Cover, configured: set<int>, t: int)
    requires 1 <= t <= MAX_BEAM_NUM
  {
    forall x :: Reachable(c, configured, x) && x < t ==> Seen(c, x) < Seen(c, t)
  }

  /** Whenever some beam is reachable there is a strongest one; the chosen beam has the greatest SNR
      reported, and is the strongest, exactly when every reachable beam of lower id than the
      strongest has a smaller whole part. */
  lemma BestReportedIff(c: Cover, configured: set<int>, reachable: int) returns (t: int)
    requires Reachable(c, configured, reachable)
    ensures Strongest(c, configured, t) && Choose(SateCover(c), configured).Some?
    ensures var b := Choose(SateCover(c), configured).value.beam;
      1 <= b <= MAX_BEAM_NUM && (BestReported(c, configured, b) <==> WholePartsDiffer(c, configured, t)) &&
      (b == t <==> WholePartsDiffer(c, configured, t))
  {
    t := StrongestExists(c, configured, reachable);
    StrongestDecides(c, configured, t);
  }

  lemma FloorOrders(p: real, q: real)
    requires p <= q
    ensures p.Floor <= q.Floor
  {
  }

  /** With beams 1 and 2 at 2.25 and 2.75 the weaker one is used. */
  lemma WeakerBeamChosen()
    ensures var c := CoverOf([SateParam(1, 1, 2.25), SateParam(1, 2, 2.75)]);
      Choose(SateCover(c), {1, 2}) == Some(SateParam(1, 1, 2.0))
  {
    var report := [SateParam(1, 1, 2.25), SateParam(1, 2, 2.75)];
    var c := CoverOf(report);
    CoverOfLast(report, 0);
    CoverOfLast(report, 1);
    assert c[0] == 2.25 && c[1] == 2.75;
    assert ReadBack(c, 1) == SateParam(1, 1, 2.0);
    DeliveryChoice(c, {1, 2});
    assert Reachable(c, {1, 2}, 1);
  }
}
