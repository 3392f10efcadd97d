/**
 What the flow control of quiche/src/flowcontrol.rs means to the peer: when its limit is raised, and how the
 window follows the pace of the updates.
 */
module FlowLaws {
  import opened Common
  import opened FlowControl

  /** No update is asked for exactly while the peer holds half a window of credit, an odd one rounded down. */
  lemma NoUpdateIff(f: Flow)
    requires f.consumed <= f.maxData
    ensures !NeedsUpdate(f) <==> 2 * (f.maxData - f.consumed) + 1 >= f.window
  {
  }

  /** After an update the next one is needed exactly when more than half the window was consumed since. */
  lemma NextUpdateIff(f: Flow, now: int, n: nat)
    ensures var g := Apply(Committed(f, now), Consume(n));
            NeedsUpdate(g) <==> 2 * n >= f.window + 2
  {
  }

  function Pow2(n: nat): nat {
    if n == 0 then 1 else 2 * Pow2(n - 1)
  }

  function Min(a: nat, b: nat): nat {
    if a <= b then a else b
  }

  /** What happens between two MAX_DATA frames: bytes are consumed, then a frame is sent at a given time. */
  datatype Round = Round(n: nat, now: int)

  function RoundOps(rounds: seq<Round>, rtt: int): seq<Op> {
    if rounds == [] then []
    else [Consume(rounds[0].n), Advertise(rounds[0].now, rtt)] + RoundOps(rounds[1..], rtt)
  }

  /** Each round consumes something and ends less than two round-trip times after the one before. */
  ghost predicate Busy(rounds: seq<Round>, last: int, rtt: int) {
    rounds != [] ==>
      rounds[0].n > 0 && rounds[0].now - last < 2 * rtt && Busy(rounds[1..], rounds[0].now, rtt)
  }

  /** Each round consumes something and ends two round-trip times or more after the one before. */
  ghost predicate Slow(rounds: seq<Round>, last: int, rtt: int) {
    rounds != [] ==>
      rounds[0].n > 0 && rounds[0].now - last >= 2 * rtt && Slow(rounds[1..], rounds[0].now, rtt)
  }

  lemma OneRound(f: Flow, round: Round, rtt: int)
    requires f.maxData == Next(f) && f.lastUpdate.Some? && round.n > 0 && f.window <= f.maxWindow
    ensures var g := Apply(Apply(f, Consume(round.n)), Advertise(round.now, rtt));
            && g.maxData == Next(g) && g.lastUpdate == Some(round.now) && g.maxWindow == f.maxWindow
            && g.consumed == f.consumed + round.n
            && g.window == if round.now - f.lastUpdate.value < 2 * rtt then Min(2 * f.window, f.maxWindow) else f.window
  {
  }

  lemma Doubled(k: nat, w: nat, most: nat)
    requires w <= most
    ensures Min(Pow2(k) * Min(2 * w, most), most) == Min(Pow2(k + 1) * w, most)
  {
    PowPositive(k);
    if 2 * w > most {
      Scale(most, 1, Pow2(k));
      Scale(2 * w, 1, Pow2(k));
    }
    assert Pow2(k + 1) * w == Pow2(k) * (2 * w);
  }

  lemma PowPositive(k: nat)
    ensures Pow2(k) >= 1
  {
  }

  lemma RunRound(f: Flow, rounds: seq<Round>, rtt: int)
    requires rounds != []
    ensures Run(f, RoundOps(rounds, rtt)) ==
            Run(Apply(Apply(f, Consume(rounds[0].n)), Advertise(rounds[0].now, rtt)), RoundOps(rounds[1..], rtt))
  {
    hide Apply;
    var ops, more := RoundOps(rounds, rtt), RoundOps(rounds[1..], rtt);
    assert ops[1..] == [Advertise(rounds[0].now, rtt)] + more;
    assert ops[1..][1..] == more;
  }

  /**
   `k` updates that each follow the one before within two round-trip times multiply the window by two to the
   `k`, up to its maximum, and leave the peer exactly one window of credit.
   */
  lemma {:induction false} BusyDoubles(f: Flow, rounds: seq<Round>, rtt: int)
    requires f.maxData == Next(f) && f.lastUpdate.Some? && f.window <= f.maxWindow
    requires Busy(rounds, f.lastUpdate.value, rtt)
    ensures var g := Run(f, RoundOps(rounds, rtt));
            g.window == Min(Pow2(|rounds|) * f.window, f.maxWindow) && g.maxData == Next(g)
    decreases |rounds|
  {
    hide Apply;
    if rounds != [] {
      var g := Apply(Apply(f, Consume(rounds[0].n)), Advertise(rounds[0].now, rtt));
      OneRound(f, rounds[0], rtt);
      RunRound(f, rounds, rtt);
      BusyDoubles(g, rounds[1..], rtt);
      Doubled(|rounds| - 1, f.window, f.maxWindow);
    }
  }

  /** Updates at least two round-trip times apart never change the window. */
  lemma {:induction false} SlowKeepsWindow(f: Flow, rounds: seq<Round>, rtt: int)
    requires f.maxData == Next(f) && f.lastUpdate.Some? && f.window <= f.maxWindow
    requires Slow(rounds, f.lastUpdate.value, rtt)
    ensures Run(f, RoundOps(rounds, rtt)).window == f.window
    decreases |rounds|
  {
    hide Apply;
    if rounds != [] {
      var g := Apply(Apply(f, Consume(rounds[0].n)), Advertise(rounds[0].now, rtt));
      OneRound(f, rounds[0], rtt);
      RunRound(f, rounds, rtt);
      SlowKeepsWindow(g, rounds[1..], rtt);
    }
  }
}
