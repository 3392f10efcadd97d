/**
 Why the filter of quiche/src/minmax.rs keeps three estimates: what the second and third stand for while the
 best one stands, and so what the result is worth once the best one leaves the window.
 */
module MinmaxExpiry {
  import opened Minmax

  // -------------------------------------------------------------------------
  // One update
  // -------------------------------------------------------------------------

  /**
   A measurement that neither finds a new minimum nor ends the window of the best estimate leaves the
   estimates spread over it: past a quarter the second is younger than the best one, past a half the third is
   younger than the second, unless the second was taken just now.
   */
  lemma SpreadOut(e: Estimates, w: Window, s: Sample)
    requires e.e0.time <= e.e1.time <= e.e2.time <= s.time && 0 <= w.quarter && 0 <= w.half
    requires s.value > e.e0.value && s.time - e.e0.time <= w.win
    ensures var r, age := MinUpdated(e, w, s), s.time - e.e0.time;
            && r.e0 == e.e0
            && (age > w.quarter ==> r.e0.time < r.e1.time)
            && (age > w.half ==> r.e1.time < r.e2.time || r.e1.time == s.time)
  {
  }

  /** The maximum's estimates spread in the same way. */
  lemma SpreadOutMax(e: Estimates, w: Window, s: Sample)
    requires e.e0.time <= e.e1.time <= e.e2.time <= s.time && 0 <= w.quarter && 0 <= w.half
    requires s.value < e.e0.value && s.time - e.e0.time <= w.win
    ensures var r, age := MaxUpdated(e, w, s), s.time - e.e0.time;
            && r.e0 == e.e0
            && (age > w.quarter ==> r.e0.time < r.e1.time)
            && (age > w.half ==> r.e1.time < r.e2.time || r.e1.time == s.time)
  {
    MaxIsNegatedMin(e, w, s);
    SpreadOut(NegEst(e), w, Neg(s));
  }

  // -------------------------------------------------------------------------
  // What the estimates are while the best one stands
  // -------------------------------------------------------------------------

  function Max(a: int, b: int): int {
    if a >= b then a else b
  }

  /** `e` is a sample taken after time `t`, and none taken after `t` is lower. */
  ghost predicate LowestAfter(h: seq<Sample>, t: int, e: Sample) {
    && (exists i :: 0 <= i < |h| && h[i] == e) && e.time > t
    && forall i :: 0 <= i < |h| && h[i].time > t ==> e.value <= h[i].value
  }

  /**
   The first sample is the best estimate. The second is the lowest sample taken later than a quarter of the
   window after it; the third is the lowest taken later than half a window after it and than the second.
   */
  ghost predicate Standing(h: seq<Sample>, e: Estimates, w: Window) {
    h != [] && InOrder(h) && e.e0 == h[0] &&
    var last, quarter, half := h[|h| - 1].time, h[0].time + w.quarter, h[0].time + w.half;
    && (if last > quarter then LowestAfter(h, quarter, e.e1) else e.e1 == e.e0)
    && (if last > Max(half, e.e1.time) then LowestAfter(h, Max(half, e.e1.time), e.e2) else e.e2.time == e.e1.time)
    && (last <= half ==> e.e2 == e.e1)
  }

  ghost predicate Ordered(w: Window) {
    0 <= w.quarter <= w.half <= w.win
  }

  lemma NewLowest(h: seq<Sample>, t: int, s: Sample)
    requires s.time > t && forall i :: 0 <= i < |h| && h[i].time > t ==> s.value <= h[i].value
    ensures LowestAfter(h + [s], t, s)
  {
    assert (h + [s])[|h|] == s;
  }

  lemma StaysLowest(h: seq<Sample>, t: int, e: Sample, s: Sample)
    requires LowestAfter(h, t, e) && e.value <= s.value
    ensures LowestAfter(h + [s], t, e)
  {
    var i :| 0 <= i < |h| && h[i] == e;
    assert (h + [s])[i] == e;
  }

  /** None of the first samples is younger than the last one. */
  lemma NoneLater(h: seq<Sample>)
    requires h != [] && InOrder(h)
    ensures forall i :: 0 <= i < |h| ==> h[0].time <= h[i].time <= h[|h| - 1].time
  {
  }

  lemma SecondStands(h: seq<Sample>, e: Estimates, w: Window, s: Sample)
    requires Standing(h, e, w) && Ordered(w) && s.time >= h[|h| - 1].time
    requires s.value > h[0].value && s.time - h[0].time <= w.win
    ensures var r, quarter := MinUpdated(e, w, s), h[0].time + w.quarter;
            && r.e0 == h[0]
            && (if s.time > quarter then LowestAfter(h + [s], quarter, r.e1) else r.e1 == r.e0)
  {
    NoneLater(h);
    var quarter := h[0].time + w.quarter;
    if s.time > quarter {
      if h[|h| - 1].time <= quarter || s.value <= e.e1.value {
        NewLowest(h, quarter, s);
      } else {
        StaysLowest(h, quarter, e.e1, s);
      }
    }
  }

  lemma ThirdStands(h: seq<Sample>, e: Estimates, w: Window, s: Sample)
    requires Standing(h, e, w) && Ordered(w) && s.time >= h[|h| - 1].time
    requires s.value > h[0].value && s.time - h[0].time <= w.win
    ensures var r, half := MinUpdated(e, w, s), h[0].time + w.half;
            && (if s.time > Max(half, r.e1.time) then LowestAfter(h + [s], Max(half, r.e1.time), r.e2)
                else r.e2.time == r.e1.time)
            && (s.time <= half ==> r.e2 == r.e1)
  {
    NoneLater(h);
    var mark := Max(h[0].time + w.half, e.e1.time);
    if s.time > mark && s.value > e.e1.value && (h[|h| - 1].time > h[0].time + w.quarter) {
      if h[|h| - 1].time <= mark || s.value <= e.e2.value {
        NewLowest(h, mark, s);
      } else {
        StaysLowest(h, mark, e.e2, s);
      }
    }
  }

  /** A measurement within the window of the best estimate and above it keeps all this. */
  lemma StandingKeeps(h: seq<Sample>, e: Estimates, w: Window, s: Sample)
    requires Standing(h, e, w) && Ordered(w) && s.time >= h[|h| - 1].time
    requires s.value > h[0].value && s.time - h[0].time <= w.win
    ensures Standing(h + [s], MinUpdated(e, w, s), w)
  {
    hide LowestAfter, MinUpdated;
    SecondStands(h, e, w, s);
    ThirdStands(h, e, w, s);
    AppendInOrder(h, s);
  }

  /** All measure with one window, above the first sample and within its window. */
  ghost predicate Stands(first: Sample, ops: seq<Op>, w: Window) {
    && Ordered(w) && InOrder(History(first, ops))
    && forall op <- ops :: op.Measure? && op.w == w && op.s.value > first.value && op.s.time - first.time <= w.win
  }

  lemma HistoryStarts(first: Sample, ops: seq<Op>)
    ensures History(first, ops)[0] == first
  {
  }

  lemma {:induction false} RunStands(first: Sample, ops: seq<Op>, w: Window)
    requires Stands(first, ops, w)
    ensures Standing(History(first, ops), MinRun(first, ops), w)
  {
    hide Standing, InOrder;
    var n := |ops|;
    RunUnfolds(first, ops);
    if n == 0 {
      FirstStands(first, w);
    } else {
      var before, op := ops[..n - 1], ops[n - 1];
      assert op in ops;
      PrefixInOrder(History(first, before), op.s);
      RunStands(first, before, w);
      HistoryStarts(first, before);
      StandingKeeps(History(first, before), MinRun(first, before), w, op.s);
    }
  }

  lemma FirstStands(first: Sample, w: Window)
    requires Ordered(w)
    ensures Standing([first], Restart(first), w)
  {
  }

  // -------------------------------------------------------------------------
  // What the result is when the best estimate expires
  // -------------------------------------------------------------------------

  /** No sample after time `t` is lower, and the value itself was taken after time `from`. */
  ghost predicate Covers(h: seq<Sample>, t: int, from: int, value: int) {
    && (exists i :: 0 <= i < |h| && h[i].value == value && h[i].time > from)
    && forall i :: 0 <= i < |h| && h[i].time > t ==> value <= h[i].value
  }

  lemma ExpiredSoon(h: seq<Sample>, e: Estimates, w: Window, s: Sample)
    requires Standing(h, e, w) && Ordered(w) && s.time >= h[|h| - 1].time && s.value > h[0].value
    requires w.quarter < h[|h| - 1].time - h[0].time <= w.win < s.time - h[0].time <= w.win + w.quarter
    ensures LowestAfter(h + [s], h[0].time + w.quarter, MinUpdated(e, w, s).e0)
  {
    NoneLater(h);
    var quarter := h[0].time + w.quarter;
    if s.value <= e.e1.value {
      NewLowest(h, quarter, s);
    } else {
      StaysLowest(h, quarter, e.e1, s);
    }
  }

  lemma ExpiredLate(h: seq<Sample>, e: Estimates, w: Window, s: Sample)
    requires Standing(h, e, w) && Ordered(w) && s.time >= h[|h| - 1].time && s.value > h[0].value
    requires w.half < h[|h| - 1].time - h[0].time <= w.win < s.time - h[0].time <= w.win + w.half
    ensures Covers(h + [s], h[0].time + w.half, h[0].time + w.quarter, MinUpdated(e, w, s).e0.value)
  {
    NoneLater(h);
    var quarter, half, r := h[0].time + w.quarter, h[0].time + w.half, MinUpdated(e, w, s).e0;
    var mark := Max(half, e.e1.time);
    if r == s {
      NewLowest(h, half, s);
      assert (h + [s])[|h|] == s;
    } else if r == e.e1 {
      StaysLowest(h, quarter, e.e1, s);
    } else {
      StaysLowest(h, mark, e.e2, s);
    }
  }

  /** A new minimum, an empty window or a reset makes the run start again: what came before has no influence. */
  lemma {:induction false} RestartForgets(first: Sample, before: seq<Op>, op: Op, after: seq<Op>)
    requires StepMin(MinRun(first, before), op) == Restart(op.s)
    ensures MinRun(first, before + [op] + after) == MinRun(op.s, after)
    decreases |after|
  {
    hide StepMin;
    var n, ops := |after|, before + [op] + after;
    if n == 0 {
      assert ops == before + [op] && ops[..|before|] == before;
    } else {
      RestartForgets(first, before, op, after[..n - 1]);
      assert ops[..|ops| - 1] == before + [op] + after[..n - 1];
    }
  }

  /** The last sample before the best estimate expires was taken `age` or more after it. */
  ghost predicate Expires(first: Sample, ops: seq<Op>, w: Window, s: Sample, age: int) {
    && Stands(first, ops, w) && InOrder(History(first, ops + [Measure(w, s)]))
    && s.value > first.value && History(first, ops)[|ops|].time - first.time > age
    && w.win < s.time - first.time <= w.win + age
  }

  lemma Extended(first: Sample, ops: seq<Op>, w: Window, s: Sample)
    requires InOrder(History(first, ops + [Measure(w, s)]))
    ensures var h := History(first, ops);
            && h != [] && h[0] == first && s.time >= h[|h| - 1].time
            && History(first, ops + [Measure(w, s)]) == h + [s]
            && MinRun(first, ops + [Measure(w, s)]) == MinUpdated(MinRun(first, ops), w, s)
  {
    hide InOrder, MinUpdated;
    assert (ops + [Measure(w, s)])[..|ops|] == ops;
    PrefixInOrder(History(first, ops), s);
    HistoryStarts(first, ops);
  }

  /**
   When the best estimate expires, and the measurement that finds out comes within a quarter of the window,
   the result is the exact minimum of all samples later than a quarter of the window after it. So it is the
   minimum of the window exactly when no sample of the window is from that first quarter and lower.
   */
  lemma MinAfterExpiry(first: Sample, ops: seq<Op>, w: Window, s: Sample)
    requires Expires(first, ops, w, s, w.quarter)
    ensures var g, r := History(first, ops + [Measure(w, s)]), MinRun(first, ops + [Measure(w, s)]).e0;
            && LowestAfter(g, first.time + w.quarter, r)
            && (IsWindowMin(g, r.value, w.win) <==>
                forall i :: 0 <= i < |g| && s.time - w.win <= g[i].time <= first.time + w.quarter ==> r.value <= g[i].value)
  {
    hide Standing, MinRun, MinUpdated;
    Extended(first, ops, w, s);
    RunStands(first, ops, w);
    LastWithin(first, ops, w);
    ExpiredSoon(History(first, ops), MinRun(first, ops), w, s);
  }

  lemma LastWithin(first: Sample, ops: seq<Op>, w: Window)
    requires Stands(first, ops, w)
    ensures History(first, ops)[|ops|].time - first.time <= w.win
  {
    if ops != [] {
      assert ops[|ops| - 1] in ops;
    }
  }

  /**
   When that measurement comes as late as half a window after the expiry, the result is still a sample later
   than the first quarter that no sample later than the first half undercuts. This is what the third estimate
   is for: without its promotion the result would be the measurement itself.
   */
  lemma MinAfterLateExpiry(first: Sample, ops: seq<Op>, w: Window, s: Sample)
    requires Expires(first, ops, w, s, w.half)
    ensures var g, r := History(first, ops + [Measure(w, s)]), MinRun(first, ops + [Measure(w, s)]).e0.value;
            && Covers(g, first.time + w.half, first.time + w.quarter, r)
            && r <= History(first, ops)[|ops|].value
  {
    hide Standing, MinRun, MinUpdated;
    Extended(first, ops, w, s);
    RunStands(first, ops, w);
    LastWithin(first, ops, w);
    ExpiredLate(History(first, ops), MinRun(first, ops), w, s);
    var h := History(first, ops);
    assert (h + [s])[|ops|] == h[|ops|];
  }

  // -------------------------------------------------------------------------
  // The maximum
  // -------------------------------------------------------------------------

  /** All measure with one window, below the first sample and within its window. */
  ghost predicate StandsMax(first: Sample, ops: seq<Op>, w: Window) {
    && Ordered(w) && InOrder(History(first, ops))
    && forall op <- ops :: op.Measure? && op.w == w && op.s.value < first.value && op.s.time - first.time <= w.win
  }

  ghost predicate ExpiresMax(first: Sample, ops: seq<Op>, w: Window, s: Sample, age: int) {
    && StandsMax(first, ops, w) && InOrder(History(first, ops + [Measure(w, s)]))
    && s.value < first.value && History(first, ops)[|ops|].time - first.time > age
    && w.win < s.time - first.time <= w.win + age
  }

  lemma ExpiresNegated(first: Sample, ops: seq<Op>, w: Window, s: Sample, age: int)
    requires ExpiresMax(first, ops, w, s, age)
    ensures Expires(Neg(first), NegAll(ops), w, Neg(s), age)
    ensures NegAll(ops + [Measure(w, s)]) == NegAll(ops) + [Measure(w, Neg(s))]
  {
    hide InOrder;
    var all := ops + [Measure(w, s)];
    assert NegAll(all) == NegAll(ops) + [Measure(w, Neg(s))];
    RunDuality(first, ops);
    RunDuality(first, all);
    NegOrder(History(first, ops));
    NegOrder(History(first, all));
    forall op <- NegAll(ops)
      ensures op.Measure? && op.w == w && op.s.value > Neg(first).value && op.s.time - first.time <= w.win
    {
      var i :| 0 <= i < |ops| && NegAll(ops)[i] == NegOp(ops[i]) == op;
      assert ops[i] in ops;
    }
  }

  /** The maximum after an expiry, with the value order reversed. */
  lemma MaxAfterExpiry(first: Sample, ops: seq<Op>, w: Window, s: Sample)
    requires ExpiresMax(first, ops, w, s, w.quarter)
    ensures var g, r := History(first, ops + [Measure(w, s)]), MaxRun(first, ops + [Measure(w, s)]).e0;
            && r.time > first.time + w.quarter && (exists i :: 0 <= i < |g| && g[i] == r)
            && (forall i :: 0 <= i < |g| && g[i].time > first.time + w.quarter ==> g[i].value <= r.value)
  {
    hide InOrder, MinRun, MaxRun, Expires;
    var all := ops + [Measure(w, s)];
    var g, n := History(first, all), NegSamples(History(first, all));
    ExpiresNegated(first, ops, w, s, w.quarter);
    RunDuality(first, all);
    MinAfterExpiry(Neg(first), NegAll(ops), w, Neg(s));
    var m := MinRun(Neg(first), NegAll(all)).e0;
    var i :| 0 <= i < |n| && n[i] == m;
    assert g[i] == Neg(m);
    forall j | 0 <= j < |g| && g[j].time > first.time + w.quarter ensures g[j].value <= Neg(m).value {
      assert n[j].time > first.time + w.quarter;
    }
  }

  lemma MaxAfterLateExpiry(first: Sample, ops: seq<Op>, w: Window, s: Sample)
    requires ExpiresMax(first, ops, w, s, w.half)
    ensures var g, r := History(first, ops + [Measure(w, s)]), MaxRun(first, ops + [Measure(w, s)]).e0.value;
            && (exists i :: 0 <= i < |g| && g[i].value == r && g[i].time > first.time + w.quarter)
            && (forall i :: 0 <= i < |g| && g[i].time > first.time + w.half ==> g[i].value <= r)
  {
    hide InOrder, MinRun, MaxRun, Expires;
    var all := ops + [Measure(w, s)];
    var g, n := History(first, all), NegSamples(History(first, all));
    ExpiresNegated(first, ops, w, s, w.half);
    RunDuality(first, all);
    MinAfterLateExpiry(Neg(first), NegAll(ops), w, Neg(s));
    var m := MinRun(Neg(first), NegAll(all)).e0.value;
    var i :| 0 <= i < |n| && n[i].value == m && n[i].time > first.time + w.quarter;
    assert g[i].value == -m;
    forall j | 0 <= j < |g| && g[j].time > first.time + w.half ensures g[j].value <= -m {
      assert n[j].time > first.time + w.half;
    }
  }
}
