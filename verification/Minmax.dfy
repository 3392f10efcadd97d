/**
 Kathleen Nichols' windowed minimum and maximum filter, quiche/src/minmax.rs: three estimates stand in
 for all samples of a time window. The quarter and half window thresholds are arbitrary.
 */
module Minmax {

  datatype Sample = Sample(time: int, value: int)

  /** Best, second best and third best estimate. */
  datatype Estimates = Estimates(e0: Sample, e1: Sample, e2: Sample)

  /** A window and the two thresholds the code derives from it. */
  datatype Window = Window(win: int, quarter: int, half: int)

  /** `duration_since`, which saturates at zero. */
  function Since(later: int, earlier: int): int {
    if later >= earlier then later - earlier else 0
  }

  function Restart(s: Sample): Estimates {
    Estimates(s, s, s)
  }

  function Promoted(e: Estimates, w: Window, s: Sample): Estimates {
    var delta := Since(s.time, e.e0.time);
    if delta > w.win then
      if Since(s.time, e.e1.time) > w.win then Estimates(e.e2, s, s) else Estimates(e.e1, e.e2, s)
    else if e.e1.time == e.e0.time && delta > w.quarter then Estimates(e.e0, s, s)
    else if e.e2.time == e.e1.time && delta > w.half then Estimates(e.e0, e.e1, s)
    else e
  }

  function MinUpdated(e: Estimates, w: Window, s: Sample): Estimates {
    if s.value <= e.e0.value || Since(s.time, e.e2.time) > w.win then Restart(s)
    else
      Promoted(if s.value <= e.e1.value then Estimates(e.e0, s, s)
                   else if s.value <= e.e2.value then Estimates(e.e0, e.e1, s)
                   else e, w, s)
  }

  function MaxUpdated(e: Estimates, w: Window, s: Sample): Estimates {
    if s.value >= e.e0.value || Since(s.time, e.e2.time) > w.win then Restart(s)
    else
      Promoted(if s.value >= e.e1.value then Estimates(e.e0, s, s)
                   else if s.value >= e.e2.value then Estimates(e.e0, e.e1, s)
                   else e, w, s)
  }

  // -------------------------------------------------------------------------
  // What the three estimates say about all samples so far
  // -------------------------------------------------------------------------

  ghost predicate InOrder(h: seq<Sample>) {
    forall i, j :: 0 <= i < j < |h| ==> h[i].time <= h[j].time
  }

  /** Sample `i` is `e`, and nothing lower has arrived since. */
  ghost predicate LowestFrom(h: seq<Sample>, i: int, e: Sample) {
    0 <= i < |h| && h[i] == e && forall j :: i <= j < |h| ==> e.value <= h[j].value
  }

  /** Each estimate is a sample that bounds all later ones; a better estimate is no younger. */
  ghost predicate Tracks(h: seq<Sample>, e: Estimates) {
    InOrder(h) && exists i0, i1, i2 :: TracksAt(h, e, i0, i1, i2)
  }

  ghost predicate TracksAt(h: seq<Sample>, e: Estimates, i0: int, i1: int, i2: int) {
    i0 <= i1 <= i2 && LowestFrom(h, i0, e.e0) && LowestFrom(h, i1, e.e1) && LowestFrom(h, i2, e.e2)
  }

  /** The estimates' own order, whatever the thresholds were. */
  lemma EstimateOrder(h: seq<Sample>, e: Estimates)
    requires Tracks(h, e)
    ensures e.e0.time <= e.e1.time <= e.e2.time <= h[|h| - 1].time
    ensures e.e0.value <= e.e1.value <= e.e2.value <= h[|h| - 1].value
  {
    var i0, i1, i2 :| TracksAt(h, e, i0, i1, i2);
    assert h[i0].time <= h[i1].time <= h[i2].time <= h[|h| - 1].time;
  }

  lemma LastTracks(h: seq<Sample>, s: Sample)
    requires InOrder(h + [s])
    ensures Tracks(h + [s], Restart(s))
  {
    assert TracksAt(h + [s], Restart(s), |h|, |h|, |h|);
  }

  lemma StillLowest(h: seq<Sample>, i: int, e: Sample, s: Sample)
    requires LowestFrom(h, i, e) && e.value <= s.value
    ensures LowestFrom(h + [s], i, e) && 0 <= i < |h|
  {
  }

  lemma LastLowest(h: seq<Sample>, s: Sample)
    ensures LowestFrom(h + [s], |h|, s)
  {
  }

  lemma AppendInOrder(h: seq<Sample>, s: Sample)
    requires InOrder(h) && (h != [] ==> s.time >= h[|h| - 1].time)
    ensures InOrder(h + [s])
  {
    var g := h + [s];
    forall i, j | 0 <= i < j < |g| ensures g[i].time <= g[j].time {
      assert h[i].time <= h[|h| - 1].time;
    }
  }

  /** One new sample keeps the estimates right, and leaves the best one inside the window. */
  lemma RunningMinKeeps(h: seq<Sample>, e: Estimates, w: Window, s: Sample)
    requires Tracks(h, e) && w.win >= 0 && s.time >= h[|h| - 1].time
    ensures Tracks(h + [s], MinUpdated(e, w, s))
    ensures s.time - MinUpdated(e, w, s).e0.time <= w.win
  {
    hide Promoted, InOrder, LowestFrom;
    var g, n := h + [s], |h|;
    var i0, i1, i2 :| TracksAt(h, e, i0, i1, i2);
    EstimateOrder(h, e);
    AppendInOrder(h, s);
    LastLowest(h, s);
    if s.value <= e.e0.value || Since(s.time, e.e2.time) > w.win {
      LastTracks(h, s);
    } else {
      StillLowest(h, i0, e.e0, s);
      var j1 := if s.value <= e.e1.value then n else i1;
      var j2 := if s.value <= e.e2.value then n else i2;
      if s.value > e.e1.value {
        StillLowest(h, i1, e.e1, s);
      }
      if s.value > e.e2.value {
        StillLowest(h, i2, e.e2, s);
      }
      var m := Estimates(e.e0, if s.value <= e.e1.value then s else e.e1, if s.value <= e.e2.value then s else e.e2);
      assert TracksAt(g, m, i0, j1, j2);
      SubwinKeeps(g, m, w, s, i0, j1, j2);
    }
  }

  lemma SubwinKeeps(g: seq<Sample>, m: Estimates, w: Window, s: Sample, i0: int, i1: int, i2: int)
    requires InOrder(g) && TracksAt(g, m, i0, i1, i2) && g[|g| - 1] == s
    requires Since(s.time, m.e2.time) <= w.win && w.win >= 0
    ensures Tracks(g, Promoted(m, w, s))
    ensures s.time - Promoted(m, w, s).e0.time <= w.win
  {
    var r, n := Promoted(m, w, s), |g| - 1;
    assert LowestFrom(g, n, s);
    if r == Estimates(m.e1, m.e2, s) {
      assert TracksAt(g, r, i1, i2, n);
    } else if r == Estimates(m.e2, s, s) {
      assert TracksAt(g, r, i2, n, n);
    } else if r == Estimates(m.e0, s, s) {
      assert TracksAt(g, r, i0, n, n);
    } else if r == Estimates(m.e0, m.e1, s) {
      assert TracksAt(g, r, i0, i1, n);
    } else {
      assert TracksAt(g, r, i0, i1, i2);
    }
  }

  /** The value is the minimum of a suffix of the history that lies within the window. */
  ghost predicate SuffixMin(h: seq<Sample>, value: int, win: int) {
    exists i :: 0 <= i < |h| && h[i].value == value && h[|h| - 1].time - h[i].time <= win
                && forall j :: i <= j < |h| ==> value <= h[j].value && h[|h| - 1].time - h[j].time <= win
  }

  lemma TracksSuffix(h: seq<Sample>, e: Estimates, win: int)
    requires Tracks(h, e) && h[|h| - 1].time - e.e0.time <= win
    ensures SuffixMin(h, e.e0.value, win)
  {
    var i0, i1, i2 :| TracksAt(h, e, i0, i1, i2);
    assert forall j :: i0 <= j < |h| ==> h[i0].time <= h[j].time;
  }

  /** The minimum over all samples in the window, the quantity being estimated. */
  ghost predicate IsWindowMin(h: seq<Sample>, value: int, win: int) {
    && (exists i :: 0 <= i < |h| && h[|h| - 1].time - h[i].time <= win && h[i].value == value)
    && (forall i :: 0 <= i < |h| && h[|h| - 1].time - h[i].time <= win ==> value <= h[i].value)
  }

  // -------------------------------------------------------------------------
  // Whole runs
  // -------------------------------------------------------------------------

  datatype Op = Measure(w: Window, s: Sample) | Reset(s: Sample)

  function StepMin(e: Estimates, op: Op): Estimates {
    match op case Measure(w, s) => MinUpdated(e, w, s) case Reset(s) => Restart(s)
  }

  function StepMax(e: Estimates, op: Op): Estimates {
    match op case Measure(w, s) => MaxUpdated(e, w, s) case Reset(s) => Restart(s)
  }

  function MinRun(first: Sample, ops: seq<Op>): Estimates {
    if ops == [] then Restart(first) else StepMin(MinRun(first, ops[..|ops| - 1]), ops[|ops| - 1])
  }

  function MaxRun(first: Sample, ops: seq<Op>): Estimates {
    if ops == [] then Restart(first) else StepMax(MaxRun(first, ops[..|ops| - 1]), ops[|ops| - 1])
  }

  function History(first: Sample, ops: seq<Op>): (h: seq<Sample>)
    ensures |h| == |ops| + 1 && (ops != [] ==> h[|ops|] == ops[|ops| - 1].s)
  {
    if ops == [] then [first] else History(first, ops[..|ops| - 1]) + [ops[|ops| - 1].s]
  }

  ghost predicate WindowsOk(ops: seq<Op>) {
    forall op <- ops :: op.Measure? ==> op.w.win >= 0
  }

  lemma PrefixInOrder(h: seq<Sample>, s: Sample)
    requires InOrder(h + [s]) && h != []
    ensures InOrder(h) && s.time >= h[|h| - 1].time
  {
    var g := h + [s];
    assert forall i :: 0 <= i < |h| ==> g[i] == h[i];
    assert g[|h| - 1].time <= g[|h|].time;
  }

  lemma {:induction false} MinRunTracks(first: Sample, ops: seq<Op>)
    requires InOrder(History(first, ops)) && WindowsOk(ops)
    ensures Tracks(History(first, ops), MinRun(first, ops))
  {
    var n := |ops|;
    if n == 0 {
      LastTracks([], first);
      assert [] + [first] == [first];
    } else {
      var before, op := ops[..n - 1], ops[n - 1];
      var h := History(first, before);
      PrefixInOrder(h, op.s);
      MinRunTracks(first, before);
      if op.Measure? {
        RunningMinKeeps(h, MinRun(first, before), op.w, op.s);
      } else {
        LastTracks(h, op.s);
      }
    }
  }

  lemma MinRunInWindow(first: Sample, ops: seq<Op>)
    requires InOrder(History(first, ops)) && WindowsOk(ops) && ops != [] && ops[|ops| - 1].Measure?
    ensures SuffixMin(History(first, ops), MinRun(first, ops).e0.value, ops[|ops| - 1].w.win)
  {
    var n := |ops|;
    var before, op := ops[..n - 1], ops[n - 1];
    var h := History(first, before);
    PrefixInOrder(h, op.s);
    MinRunTracks(first, before);
    RunningMinKeeps(h, MinRun(first, before), op.w, op.s);
    TracksSuffix(h + [op.s], MinRun(first, ops), op.w.win);
  }

  /**
   After every measurement of every run the value returned is the minimum of a suffix of the samples
   that lies within the window just given; so it is between the true window minimum and the latest sample.
   */
  lemma MinRunExactOnSuffix(first: Sample, ops: seq<Op>, truth: int)
    requires InOrder(History(first, ops)) && WindowsOk(ops) && ops != [] && ops[|ops| - 1].Measure?
    requires IsWindowMin(History(first, ops), truth, ops[|ops| - 1].w.win)
    ensures SuffixMin(History(first, ops), MinRun(first, ops).e0.value, ops[|ops| - 1].w.win)
    ensures truth <= MinRun(first, ops).e0.value <= ops[|ops| - 1].s.value
  {
    MinRunInWindow(first, ops);
  }

  /** All operations measure, with one window. */
  ghost predicate Steady(ops: seq<Op>, win: int) {
    win >= 0 && forall op <- ops :: op.Measure? && op.w.win == win
  }

  lemma LowRestarts(h: seq<Sample>, e: Estimates, w: Window, s: Sample)
    requires Tracks(h, e) && forall j :: 0 <= j < |h| ==> s.value <= h[j].value
    ensures MinUpdated(e, w, s).e0 == s
  {
    var i0, i1, i2 :| TracksAt(h, e, i0, i1, i2);
    assert s.value <= h[i0].value;
  }

  /** The last all-time low stays the best estimate for as long as it is in the window. */
  lemma {:induction false} LowestIsKept(first: Sample, ops: seq<Op>, win: int, m: nat)
    requires InOrder(History(first, ops)) && Steady(ops, win) && m <= |ops|
    requires var h := History(first, ops);
             && h[|ops|].time - h[m].time <= win
             && (forall j :: 0 <= j < |h| ==> h[m].value <= h[j].value)
             && (forall j :: m < j < |h| ==> h[m].value < h[j].value)
    ensures MinRun(first, ops).e0 == History(first, ops)[m]
  {
    hide Tracks, InOrder, MinUpdated, MinRun;
    var n := |ops|;
    RunUnfolds(first, ops);
    if n > 0 {
      var before, op := ops[..n - 1], ops[n - 1];
      var h, e := History(first, before), MinRun(first, before);
      PrefixInOrder(h, op.s);
      MinRunTracks(first, before);
      var g := History(first, ops);
      assert g == h + [op.s];
      assert g[n] == op.s && forall j :: 0 <= j < n ==> g[j] == h[j];
      if m == n {
        LowRestarts(h, e, op.w, op.s);
      } else {
        LowestIsKept(first, before, win, m);
        LowStays(h, e, op.w, op.s, m);
      }
    }
  }

  lemma RunUnfolds(first: Sample, ops: seq<Op>)
    ensures ops == [] ==> MinRun(first, ops) == Restart(first)
    ensures ops != [] && ops[|ops| - 1].Measure? ==>
              MinRun(first, ops) == MinUpdated(MinRun(first, ops[..|ops| - 1]), ops[|ops| - 1].w, ops[|ops| - 1].s)
  {
  }

  /** A best estimate in the window stays when a higher sample arrives. */
  lemma LowStays(h: seq<Sample>, e: Estimates, w: Window, s: Sample, m: nat)
    requires Tracks(h, e) && m < |h| && e.e0 == h[m] && s.value > h[m].value && s.time - h[m].time <= w.win && w.win >= 0
    requires s.time >= h[|h| - 1].time
    ensures MinUpdated(e, w, s).e0 == h[m]
  {
    hide Tracks;
    EstimateOrder(h, e);
  }

  lemma {:induction false} LastIndexOf(h: seq<Sample>, value: int, i: nat) returns (m: nat)
    requires i < |h| && h[i].value == value
    ensures i <= m < |h| && h[m].value == value && forall j :: m < j < |h| ==> h[j].value != value
    decreases |h| - i
  {
    if j :| i < j < |h| && h[j].value == value {
      m := LastIndexOf(h, value, j);
    } else {
      m := i;
    }
  }

  /** With one window throughout, the filter is exact whenever the window holds the all-time low. */
  lemma ExactWhenLowestInWindow(first: Sample, ops: seq<Op>, win: int, truth: int)
    requires InOrder(History(first, ops)) && Steady(ops, win)
    requires IsWindowMin(History(first, ops), truth, win)
    requires forall s <- History(first, ops) :: truth <= s.value
    ensures MinRun(first, ops).e0.value == truth
  {
    var h := History(first, ops);
    var i :| 0 <= i < |h| && h[|h| - 1].time - h[i].time <= win && h[i].value == truth;
    var m := LastIndexOf(h, truth, i);
    LowestIsKept(first, ops, win, m);
  }

  /**
   Exactness is lost only where the best estimate expires: if it was the minimum of the window, or of a wider
   one, it still is after a measurement that finds a new minimum or comes before the estimate's window ends.
   */
  lemma ExactUnlessExpired(h: seq<Sample>, e: Estimates, wide: int, w: Window, s: Sample)
    requires Tracks(h, e) && IsWindowMin(h, e.e0.value, wide) && 0 <= w.win <= wide && s.time >= h[|h| - 1].time
    requires s.value <= e.e0.value || s.time - e.e0.time <= w.win
    ensures IsWindowMin(h + [s], MinUpdated(e, w, s).e0.value, w.win)
  {
    hide Tracks, InOrder;
    EstimateOrder(h, e);
    var g, r := h + [s], MinUpdated(e, w, s).e0;
    assert r == if s.value <= e.e0.value then s else e.e0;
    forall i | 0 <= i < |g| && s.time - g[i].time <= w.win ensures r.value <= g[i].value {
      assert i < |h| ==> g[i] == h[i] && h[|h| - 1].time - h[i].time <= wide;
    }
    if r == s {
      assert g[|h|] == s;
    } else {
      var i := WhereBest(h, e);
      assert g[i] == h[i];
    }
  }

  lemma WhereBest(h: seq<Sample>, e: Estimates) returns (i: nat)
    requires Tracks(h, e)
    ensures i < |h| && h[i] == e.e0
  {
    var i0, i1, i2 :| TracksAt(h, e, i0, i1, i2);
    i := i0;
  }

  /** So in a run that measures with windows that never widen, an inexact result follows an expiry. */
  lemma InexactOnlyAfterExpiry(first: Sample, ops: seq<Op>, wide: int, w: Window, s: Sample)
    requires InOrder(History(first, ops) + [s]) && WindowsOk(ops) && 0 <= w.win <= wide
    requires IsWindowMin(History(first, ops), MinRun(first, ops).e0.value, wide)
    requires !IsWindowMin(History(first, ops) + [s], MinUpdated(MinRun(first, ops), w, s).e0.value, w.win)
    ensures s.time - MinRun(first, ops).e0.time > w.win && s.value > MinRun(first, ops).e0.value
  {
    hide IsWindowMin, Tracks, MinRun, MinUpdated;
    var h, e := History(first, ops), MinRun(first, ops);
    PrefixInOrder(h, s);
    MinRunTracks(first, ops);
    if s.value <= e.e0.value || s.time - e.e0.time <= w.win {
      ExactUnlessExpired(h, e, wide, w, s);
    }
  }

  /** A reset is exact exactly when the new sample is no higher than any other in the window. */
  lemma ResetExactIff(h: seq<Sample>, s: Sample, win: int)
    requires win >= 0
    ensures IsWindowMin(h + [s], Restart(s).e0.value, win) <==>
              forall i :: 0 <= i < |h| && s.time - h[i].time <= win ==> s.value <= h[i].value
  {
    var g := h + [s];
    assert g[|h|] == s && forall i :: 0 <= i < |h| ==> g[i] == h[i];
  }

  /** The filter is not the window minimum: a lower sample can sit in the window, forgotten. */
  lemma MinRunCanMissMinimum()
    ensures var w := Window(100, 25, 50);
            var ops := [Measure(w, Sample(10, 5)), Measure(w, Sample(30, 9)), Measure(w, Sample(105, 10))];
            InOrder(History(Sample(0, 1), ops)) && MinRun(Sample(0, 1), ops).e0.value == 9
            && IsWindowMin(History(Sample(0, 1), ops), 5, 100)
  {
    var w := Window(100, 25, 50);
    var f := Sample(0, 1);
    var a, b, c := Measure(w, Sample(10, 5)), Measure(w, Sample(30, 9)), Measure(w, Sample(105, 10));
    assert [a, b, c][..2] == [a, b] && [a, b][..1] == [a] && [a][..0] == [];
    assert History(f, [a]) == [f, a.s] && History(f, [a, b]) == [f, a.s, b.s];
    assert MinRun(f, []) == Restart(f) && MinRun(f, [a]) == MinUpdated(Restart(f), w, a.s);
    assert MinRun(f, [a, b]) == Estimates(f, b.s, b.s);
    var h := History(f, [a, b, c]);
    assert h == [f, a.s, b.s, c.s];
    assert h[1].value == 5;
  }

  // -------------------------------------------------------------------------
  // The maximum is the minimum of negated values
  // -------------------------------------------------------------------------

  function Neg(s: Sample): Sample {
    s.(value := -s.value)
  }

  function NegOp(op: Op): Op {
    op.(s := Neg(op.s))
  }

  function NegAll(ops: seq<Op>): (r: seq<Op>)
    ensures |r| == |ops| && forall i :: 0 <= i < |ops| ==> r[i] == NegOp(ops[i])
  {
    seq(|ops|, i requires 0 <= i < |ops| => NegOp(ops[i]))
  }

  function NegSamples(h: seq<Sample>): (r: seq<Sample>)
    ensures |r| == |h| && forall i :: 0 <= i < |h| ==> r[i] == Neg(h[i])
  {
    seq(|h|, i requires 0 <= i < |h| => Neg(h[i]))
  }

  function NegEst(e: Estimates): Estimates {
    Estimates(Neg(e.e0), Neg(e.e1), Neg(e.e2))
  }

  lemma StepDuality(e: Estimates, op: Op)
    ensures StepMax(e, op) == NegEst(StepMin(NegEst(e), NegOp(op)))
  {
  }

  lemma {:induction false} RunDuality(first: Sample, ops: seq<Op>)
    ensures MaxRun(first, ops) == NegEst(MinRun(Neg(first), NegAll(ops)))
    ensures History(Neg(first), NegAll(ops)) == NegSamples(History(first, ops))
  {
    hide StepMin, StepMax;
    var n := |ops|;
    if n > 0 {
      var before := ops[..n - 1];
      RunDuality(first, before);
      assert NegAll(ops)[..n - 1] == NegAll(before);
      StepDuality(MaxRun(first, before), ops[n - 1]);
    }
  }

  /** Sample `i` is `e`, and nothing higher has arrived since. */
  ghost predicate HighestFrom(h: seq<Sample>, i: int, e: Sample) {
    0 <= i < |h| && h[i] == e && forall j :: i <= j < |h| ==> h[j].value <= e.value
  }

  ghost predicate TracksMaxAt(h: seq<Sample>, e: Estimates, i0: int, i1: int, i2: int) {
    i0 <= i1 <= i2 && HighestFrom(h, i0, e.e0) && HighestFrom(h, i1, e.e1) && HighestFrom(h, i2, e.e2)
  }

  /** Each estimate is a sample that no later one exceeds; a better estimate is no younger. */
  ghost predicate TracksMax(h: seq<Sample>, e: Estimates) {
    InOrder(h) && exists i0, i1, i2 :: TracksMaxAt(h, e, i0, i1, i2)
  }

  lemma NegFrom(h: seq<Sample>, i: int, e: Sample)
    ensures HighestFrom(h, i, e) <==> LowestFrom(NegSamples(h), i, Neg(e))
  {
    var n := NegSamples(h);
    if LowestFrom(n, i, Neg(e)) {
      forall j | i <= j < |h| ensures h[j].value <= e.value {
        assert Neg(e).value <= n[j].value;
      }
      assert n[i] == Neg(h[i]);
    }
  }

  lemma NegOrder(h: seq<Sample>)
    ensures InOrder(h) <==> InOrder(NegSamples(h))
  {
    var n := NegSamples(h);
    if InOrder(n) {
      forall i, j | 0 <= i < j < |h| ensures h[i].time <= h[j].time {
        assert n[i].time <= n[j].time;
      }
    }
  }

  /** Tracking the maximum is tracking the minimum of the negated samples. */
  lemma NegTracks(h: seq<Sample>, e: Estimates)
    ensures TracksMax(h, e) <==> Tracks(NegSamples(h), NegEst(e))
  {
    hide LowestFrom, HighestFrom, InOrder;
    NegOrder(h);
    if TracksMax(h, e) {
      var i0, i1, i2 :| TracksMaxAt(h, e, i0, i1, i2);
      NegFrom(h, i0, e.e0);
      NegFrom(h, i1, e.e1);
      NegFrom(h, i2, e.e2);
      assert TracksAt(NegSamples(h), NegEst(e), i0, i1, i2);
    }
    if Tracks(NegSamples(h), NegEst(e)) {
      var i0, i1, i2 :| TracksAt(NegSamples(h), NegEst(e), i0, i1, i2);
      NegFrom(h, i0, e.e0);
      NegFrom(h, i1, e.e1);
      NegFrom(h, i2, e.e2);
      assert TracksMaxAt(h, e, i0, i1, i2);
    }
  }

  lemma NegTwice(e: Estimates)
    ensures NegEst(NegEst(e)) == e
  {
  }

  /** One new sample keeps the maximum's estimates right, and leaves the best one inside the window. */
  lemma RunningMaxKeeps(h: seq<Sample>, e: Estimates, w: Window, s: Sample)
    requires TracksMax(h, e) && w.win >= 0 && s.time >= h[|h| - 1].time
    ensures TracksMax(h + [s], MaxUpdated(e, w, s))
    ensures s.time - MaxUpdated(e, w, s).e0.time <= w.win
  {
    hide Tracks, TracksMax, MinUpdated, MaxUpdated;
    NonEmpty(h, e);
    NegTracks(h, e);
    RunningMinKeeps(NegSamples(h), NegEst(e), w, Neg(s));
    MaxIsNegatedMin(e, w, s);
    NegTwice(MinUpdated(NegEst(e), w, Neg(s)));
    assert NegSamples(h + [s]) == NegSamples(h) + [Neg(s)];
    NegTracks(h + [s], MaxUpdated(e, w, s));
  }

  lemma NonEmpty(h: seq<Sample>, e: Estimates)
    requires TracksMax(h, e)
    ensures h != []
  {
  }

  lemma MaxIsNegatedMin(e: Estimates, w: Window, s: Sample)
    ensures MaxUpdated(e, w, s) == NegEst(MinUpdated(NegEst(e), w, Neg(s)))
  {
    StepDuality(e, Measure(w, s));
  }

  /** The maximum's estimates over every run, resets included. */
  lemma MaxRunTracks(first: Sample, ops: seq<Op>)
    requires InOrder(History(first, ops)) && WindowsOk(ops)
    ensures TracksMax(History(first, ops), MaxRun(first, ops))
  {
    hide Tracks, TracksMax, MinRun, MaxRun, InOrder, History;
    RunDuality(first, ops);
    NegOrder(History(first, ops));
    MinRunTracks(Neg(first), NegAll(ops));
    NegTwice(MinRun(Neg(first), NegAll(ops)));
    NegTracks(History(first, ops), MaxRun(first, ops));
  }

  /** The estimates of the maximum in order. */
  lemma MaxEstimateOrder(h: seq<Sample>, e: Estimates)
    requires TracksMax(h, e)
    ensures e.e0.time <= e.e1.time <= e.e2.time <= h[|h| - 1].time
    ensures e.e0.value >= e.e1.value >= e.e2.value >= h[|h| - 1].value
  {
    var i0, i1, i2 :| TracksMaxAt(h, e, i0, i1, i2);
    assert h[i0].time <= h[i1].time <= h[i2].time <= h[|h| - 1].time;
  }

  /** The value is the maximum of a suffix of the history that lies within the window. */
  ghost predicate SuffixMax(h: seq<Sample>, value: int, win: int) {
    exists i :: 0 <= i < |h| && h[i].value == value && h[|h| - 1].time - h[i].time <= win
                && forall j :: i <= j < |h| ==> h[j].value <= value && h[|h| - 1].time - h[j].time <= win
  }

  lemma TracksMaxSuffix(h: seq<Sample>, e: Estimates, win: int)
    requires TracksMax(h, e) && h[|h| - 1].time - e.e0.time <= win
    ensures SuffixMax(h, e.e0.value, win)
  {
    var i0, i1, i2 :| TracksMaxAt(h, e, i0, i1, i2);
    assert forall j :: i0 <= j < |h| ==> h[i0].time <= h[j].time;
  }

  /** The maximum over all samples in the window. */
  ghost predicate IsWindowMax(h: seq<Sample>, value: int, win: int) {
    && (exists i :: 0 <= i < |h| && h[|h| - 1].time - h[i].time <= win && h[i].value == value)
    && (forall i :: 0 <= i < |h| && h[|h| - 1].time - h[i].time <= win ==> h[i].value <= value)
  }

  /**
   `running_max` keeps the whole promise with the value order reversed: its result is the maximum of a
   suffix of the samples within the window, between the latest sample and the true window maximum.
   */
  lemma MaxRunExactOnSuffix(first: Sample, ops: seq<Op>, truth: int)
    requires InOrder(History(first, ops)) && WindowsOk(ops) && ops != [] && ops[|ops| - 1].Measure?
    requires IsWindowMax(History(first, ops), truth, ops[|ops| - 1].w.win)
    ensures SuffixMax(History(first, ops), MaxRun(first, ops).e0.value, ops[|ops| - 1].w.win)
    ensures ops[|ops| - 1].s.value <= MaxRun(first, ops).e0.value <= truth
  {
    hide TracksMax;
    var n := |ops|;
    var before, op := ops[..n - 1], ops[n - 1];
    var h := History(first, before);
    PrefixInOrder(h, op.s);
    MaxRunTracks(first, before);
    RunningMaxKeeps(h, MaxRun(first, before), op.w, op.s);
    TracksMaxSuffix(h + [op.s], MaxRun(first, ops), op.w.win);
  }

  // -------------------------------------------------------------------------
  // The filter, updated in place
  // -------------------------------------------------------------------------

  class Filter {
    const estimate: array<Sample>

    ghost predicate Valid()
      reads this
    {
      estimate.Length == 3
    }

    ghost function View(): Estimates
      requires Valid()
      reads this, estimate
    {
      Estimates(estimate[0], estimate[1], estimate[2])
    }

    constructor (now: int, value: int)
      ensures Valid() && fresh(estimate) && View() == Restart(Sample(now, value))
    {
      estimate := new Sample[3](_ => Sample(now, value));
    }

    method Reset(time: int, meas: int) returns (r: int)
      requires Valid()
      modifies estimate
      ensures View() == Restart(Sample(time, meas)) && r == meas
    {
      for i := 0 to 3
        invariant forall k :: 0 <= k < i ==> estimate[k] == Sample(time, meas)
      {
        estimate[i] := Sample(time, meas);
      }
      return estimate[0].value;
    }

    /** As time advances, promotes the second and third estimate. */
    method SubwinUpdate(w: Window, time: int, meas: int) returns (r: int)
      requires Valid()
      modifies estimate
      ensures View() == Promoted(old(View()), w, Sample(time, meas)) && r == View().e0.value
    {
      var val := Sample(time, meas);
      var delta := Since(time, estimate[0].time);
      if delta > w.win {
        estimate[0] := estimate[1];
        estimate[1] := estimate[2];
        estimate[2] := val;
        if Since(time, estimate[0].time) > w.win {
          estimate[0] := estimate[1];
          estimate[1] := estimate[2];
          estimate[2] := val;
        }
      } else if estimate[1].time == estimate[0].time && delta > w.quarter {
        estimate[2] := val;
        estimate[1] := val;
      } else if estimate[2].time == estimate[1].time && delta > w.half {
        estimate[2] := val;
      }
      return estimate[0].value;
    }

    /** Given the samples so far, in time order: returns the minimum of a suffix within the window. */
    method RunningMin(w: Window, time: int, meas: int, ghost h: seq<Sample>) returns (r: int)
      requires Valid() && Tracks(h, View()) && w.win >= 0 && time >= h[|h| - 1].time
      modifies estimate
      ensures View() == MinUpdated(old(View()), w, Sample(time, meas)) && r == View().e0.value
      ensures Tracks(h + [Sample(time, meas)], View())
      ensures SuffixMin(h + [Sample(time, meas)], r, w.win)
    {
      var val := Sample(time, meas);
      RunningMinKeeps(h, View(), w, val);
      TracksSuffix(h + [val], MinUpdated(View(), w, val), w.win);
      var delta := Since(time, estimate[2].time);
      if val.value <= estimate[0].value || delta > w.win {
        r := Reset(time, meas);
        return;
      }
      if val.value <= estimate[1].value {
        estimate[2] := val;
        estimate[1] := val;
      } else if val.value <= estimate[2].value {
        estimate[2] := val;
      }
      r := SubwinUpdate(w, time, meas);
    }

    /** Given the samples so far, in time order: returns the maximum of a suffix within the window. */
    method RunningMax(w: Window, time: int, meas: int, ghost h: seq<Sample>) returns (r: int)
      requires Valid() && TracksMax(h, View()) && w.win >= 0 && time >= h[|h| - 1].time
      modifies estimate
      ensures View() == MaxUpdated(old(View()), w, Sample(time, meas)) && r == View().e0.value
      ensures TracksMax(h + [Sample(time, meas)], View())
      ensures SuffixMax(h + [Sample(time, meas)], r, w.win)
    {
      var val := Sample(time, meas);
      RunningMaxKeeps(h, View(), w, val);
      TracksMaxSuffix(h + [val], MaxUpdated(View(), w, val), w.win);
      var delta := Since(time, estimate[2].time);
      if val.value >= estimate[0].value || delta > w.win {
        r := Reset(time, meas);
        return;
      }
      if val.value >= estimate[1].value {
        estimate[2] := val;
        estimate[1] := val;
      } else if val.value >= estimate[2].value {
        estimate[2] := val;
      }
      r := SubwinUpdate(w, time, meas);
    }
  }
}
