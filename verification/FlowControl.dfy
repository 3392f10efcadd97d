/**
 The receiver's flow control, quiche/src/flowcontrol.rs, and the way a connection drives it when it sends
 MAX_DATA (quiche/src/lib.rs): how far a peer may send, when the limit is raised, how the window grows.
 */
module FlowControl {
  import opened Common

  const WINDOW_INCREASE_FACTOR := 2
  const WINDOW_TRIGGER_FACTOR := 2

  datatype Flow = Flow(consumed: nat, maxData: nat, window: nat, maxWindow: nat, lastUpdate: Option<int>)

  function Next(f: Flow): nat {
    f.consumed + f.window
  }

  /** Less than half a window of credit is left. */
  predicate NeedsUpdate(f: Flow) {
    f.maxData - f.consumed < f.window / 2
  }

  predicate Tunes(f: Flow, now: int, rtt: int) {
    f.lastUpdate.Some? && now - f.lastUpdate.value < rtt * WINDOW_TRIGGER_FACTOR
  }

  function Tuned(f: Flow, now: int, rtt: int): Flow {
    if !Tunes(f, now, rtt) then f
    else
      var w := f.window * WINDOW_INCREASE_FACTOR;
      f.(window := if w <= f.maxWindow then w else f.maxWindow)
  }

  function Committed(f: Flow, now: int): Flow {
    f.(maxData := Next(f), lastUpdate := Some(now))
  }

  function Bounded(f: Flow, minWindow: nat): Flow {
    if minWindow > f.window then f.(window := minWindow) else f
  }

  /** Sending MAX_DATA: test whether the limit would rise, autotune, commit. */
  function Advertised(f: Flow, now: int, rtt: int): Flow {
    if f.maxData < Next(f) then Committed(Tuned(f, now, rtt), now) else f
  }

  // -------------------------------------------------------------------------
  // Whole runs
  // -------------------------------------------------------------------------

  datatype Op =
    | Consume(n: nat)
    | Advertise(now: int, rtt: int)
    | Autotune(now: int, rtt: int)
    | LowerBound(minWindow: nat)

  function Apply(f: Flow, op: Op): Flow {
    match op
    case Consume(n) => f.(consumed := f.consumed + n)
    case Advertise(now, rtt) => Advertised(f, now, rtt)
    case Autotune(now, rtt) => Tuned(f, now, rtt)
    case LowerBound(m) => Bounded(f, m)
  }

  /** The peer stays within its limit. */
  predicate Allowed(f: Flow, op: Op) {
    op.Consume? ==> f.consumed + op.n <= f.maxData
  }

  /** No lower bound asks for a window above `cap`. */
  predicate Within(op: Op, cap: nat) {
    op.LowerBound? ==> op.minWindow <= cap
  }

  function Run(f: Flow, ops: seq<Op>): Flow
    decreases |ops|
  {
    if ops == [] then f else Run(Apply(f, ops[0]), ops[1..])
  }

  predicate AllowedRun(f: Flow, ops: seq<Op>)
    decreases |ops|
  {
    ops == [] || (Allowed(f, ops[0]) && AllowedRun(Apply(f, ops[0]), ops[1..]))
  }

  /** How many times MAX_DATA was sent because it was needed. */
  function NeededUpdates(f: Flow, ops: seq<Op>): nat
    decreases |ops|
  {
    if ops == [] then 0
    else (if ops[0].Advertise? && NeedsUpdate(f) then 1 else 0) + NeededUpdates(Apply(f, ops[0]), ops[1..])
  }

  /** Credit is not overdrawn, and neither it nor a window is ever more than `cap`. */
  ghost predicate Inv(f: Flow, cap: nat) {
    f.consumed <= f.maxData && f.maxData - f.consumed <= cap && f.window <= cap && f.maxWindow <= cap
  }

  /** What a needed update is worth at least: more than half the window. */
  function Raise(window: nat): nat {
    (window + 1) / 2 + 1
  }

  /** A window above its maximum alone made the limit look higher, and autotuning cuts it back. */
  predicate Falls(f: Flow, op: Op) {
    op.Advertise? && Tunes(f, op.now, op.rtt) && f.consumed + f.maxWindow < f.maxData < f.consumed + f.window
  }

  /** Every operation keeps the credit within its cap, and lowers the limit in exactly one case. */
  lemma StepKeeps(f: Flow, op: Op, cap: nat)
    requires Inv(f, cap) && Allowed(f, op) && Within(op, cap)
    ensures var g := Apply(f, op);
            && Inv(g, cap) && g.consumed >= f.consumed && g.maxWindow == f.maxWindow
            && (g.maxData < f.maxData <==> Falls(f, op))
  {
  }

  /** While windows stay within their maximum nothing falls, and a needed update raises the limit by more than half the window. */
  lemma StepRaises(f: Flow, op: Op, cap: nat)
    requires Inv(f, cap) && Allowed(f, op) && f.window <= f.maxWindow && Within(op, f.maxWindow)
    ensures var g := Apply(f, op);
            && Inv(g, cap) && g.maxData >= f.maxData && f.window <= g.window <= g.maxWindow == f.maxWindow
            && (op.Advertise? && NeedsUpdate(f) ==> g.maxData >= f.maxData + Raise(f.window))
  {
  }

  predicate WithinRun(ops: seq<Op>, cap: nat) {
    forall op <- ops :: Within(op, cap)
  }

  /** Over every run, whatever the lower bounds: outstanding credit never exceeds the largest limit or window ever given. */
  lemma {:induction false} RunCredit(f: Flow, ops: seq<Op>, cap: nat)
    requires Inv(f, cap) && AllowedRun(f, ops) && WithinRun(ops, cap)
    ensures Inv(Run(f, ops), cap) && Run(f, ops).maxWindow == f.maxWindow
    decreases |ops|
  {
    hide Apply, Allowed, Inv;
    if ops != [] {
      StepKeeps(f, ops[0], cap);
      RunCredit(Apply(f, ops[0]), ops[1..], cap);
    }
  }

  /** With lower bounds within the largest window the limit never falls, and each needed update raises it. */
  lemma {:induction false} RunRaises(f: Flow, ops: seq<Op>, cap: nat)
    requires Inv(f, cap) && AllowedRun(f, ops) && f.window <= f.maxWindow && WithinRun(ops, f.maxWindow)
    ensures var g := Run(f, ops);
            && g.maxData >= f.maxData && f.window <= g.window <= g.maxWindow == f.maxWindow
            && g.maxData >= f.maxData + NeededUpdates(f, ops) * Raise(f.window)
    decreases |ops|
  {
    hide Apply, Allowed, Inv, Raise, NeedsUpdate;
    if ops != [] {
      var g, n := Apply(f, ops[0]), NeededUpdates(Apply(f, ops[0]), ops[1..]);
      StepRaises(f, ops[0], cap);
      RunRaises(g, ops[1..], cap);
      RaiseGrows(f.window, g.window);
      Scale(n, Raise(f.window), Raise(g.window));
      assert (1 + n) * Raise(f.window) == Raise(f.window) + n * Raise(f.window);
    } else {
      assert 0 * Raise(f.window) == 0;
    }
  }

  lemma RaiseGrows(v: nat, w: nat)
    requires v <= w
    ensures Raise(v) <= Raise(w)
  {
  }

  lemma Scale(n: nat, a: nat, b: nat)
    requires a <= b
    ensures n * a <= n * b
  {
  }

  /** From a fresh controller: the credit a peer holds is bounded by the initial limit or the largest window. */
  lemma FreshRunCredit(maxData: nat, window: nat, maxWindow: nat, ops: seq<Op>)
    requires window <= maxWindow && WithinRun(ops, maxWindow)
    requires AllowedRun(Flow(0, maxData, window, maxWindow, None), ops)
    ensures var g := Run(Flow(0, maxData, window, maxWindow, None), ops);
            && g.consumed <= g.maxData && maxData <= g.maxData
            && g.maxData - g.consumed <= if maxData > maxWindow then maxData else maxWindow
  {
    hide Apply, AllowedRun;
    var f, cap := Flow(0, maxData, window, maxWindow, None), if maxData > maxWindow then maxData else maxWindow;
    assert forall op <- ops :: Within(op, maxWindow) ==> Within(op, cap);
    RunCredit(f, ops, cap);
    RunRaises(f, ops, cap);
  }

  /**
   The bound on the window is needed. `ensure_window_lower_bound` is not capped, so the window can exceed
   the largest window; autotuning then shrinks it after the test, and MAX_DATA announces a lower limit.
   */
  lemma AdvertisedLimitFallsIff(f: Flow, now: int, rtt: int)
    requires f.consumed <= f.maxData
    ensures Advertised(f, now, rtt).maxData < f.maxData
            <==> Tunes(f, now, rtt) && f.consumed + f.maxWindow < f.maxData < f.consumed + f.window
  {
  }

  lemma AdvertisedLimitCanFall(f: Flow, raised: nat, higher: nat, now: int, rtt: int)
    requires f == Flow(0, 100, 100, 100, None) && 100 < raised < higher && rtt > 0
    ensures var sent := Advertised(Bounded(f, raised), now, rtt);
            sent.maxData == raised && Advertised(Bounded(sent, higher), now, rtt).maxData == 100
  {
    var sent := Advertised(Bounded(f, raised), now, rtt);
    assert sent == Flow(0, raised, raised, 100, Some(now));
    assert Tunes(Bounded(sent, higher), now, rtt);
  }

  // -------------------------------------------------------------------------
  // The controller, updated in place
  // -------------------------------------------------------------------------

  class Controller {
    var consumed: nat
    var maxData: nat
    var window: nat
    const maxWindow: nat
    var lastUpdate: Option<int>

    ghost function View(): Flow
      reads this
    {
      Flow(consumed, maxData, window, maxWindow, lastUpdate)
    }

    constructor (maxData: nat, window: nat, maxWindow: nat)
      ensures View() == Flow(0, maxData, window, maxWindow, None)
    {
      consumed, lastUpdate := 0, None;
      this.maxData, this.window, this.maxWindow := maxData, window, maxWindow;
    }

    method AddConsumed(n: nat)
      modifies this
      ensures View() == Apply(old(View()), Consume(n))
    {
      consumed := consumed + n;
    }

    /** The subtraction needs the peer to be within its limit. */
    method ShouldUpdateMaxData() returns (b: bool)
      requires consumed <= maxData
      ensures b <==> NeedsUpdate(View())
      ensures b ==> maxData + window - window / 2 < Next(View())
    {
      var available: nat := maxData - consumed;
      return available < window / 2;
    }

    method MaxDataNext() returns (n: nat)
      ensures n == Next(View())
    {
      return consumed + window;
    }

    method UpdateMaxData(now: int)
      modifies this
      ensures View() == Committed(old(View()), now)
    {
      maxData := MaxDataNext();
      lastUpdate := Some(now);
    }

    method AutotuneWindow(now: int, rtt: int)
      modifies this
      ensures View() == Tuned(old(View()), now, rtt)
    {
      if lastUpdate.Some? && now - lastUpdate.value < rtt * WINDOW_TRIGGER_FACTOR {
        var w := window * WINDOW_INCREASE_FACTOR;
        window := if w <= maxWindow then w else maxWindow;
      }
    }

    method EnsureWindowLowerBound(minWindow: nat)
      modifies this
      ensures View() == Bounded(old(View()), minWindow)
    {
      if minWindow > window {
        window := minWindow;
      }
    }

    /** The connection's MAX_DATA step; returns the limit put in the frame, if one is sent. */
    method SendMaxData(now: int, rtt: int) returns (frame: Option<nat>)
      modifies this
      ensures View() == Advertised(old(View()), now, rtt)
      ensures frame == if old(maxData < Next(View())) then Some(maxData) else None
    {
      var next := MaxDataNext();
      if maxData < next {
        AutotuneWindow(now, rtt);
        next := MaxDataNext();
        UpdateMaxData(now);
        return Some(next);
      }
      return None;
    }
  }
}
