/**
 Which of the IDs the receiver uses are still usable at the sender: the floor a `new_scid` raises is
 known to the receiver only once a frame that carries it arrives (sections 5.1.1 and 5.1.2 of RFC 9000).
 */
module CidUsability {
  import opened Common
  import opened CidSpec
  import opened SourceRuns
  import opened DestinationRuns
  import opened CidProtocol

  // -------------------------------------------------------------------------
  // The invariant
  // -------------------------------------------------------------------------

  /** The receiver uses the number, or will once the frames on the way arrive. */
  ghost predicate Held(y: System, n: nat) {
    n in Nums(y.rcv.dcids.inner) || n in FlightNums(y.flight)
  }

  /** Some frame on the way asks to retire the number. */
  ghost predicate Recalled(flight: seq<NewCid>, n: nat) {
    exists j :: 0 <= j < |flight| && n < flight[j].floor
  }

  /** The sender no longer counts a held number as usable, and nothing on the way tells the receiver. */
  ghost predicate WrittenOff(y: System, n: nat) {
    Held(y, n) && n < y.snd.retirePriorTo && !Recalled(y.flight, n)
  }

  /** No frame is ahead of the sender's floor. */
  ghost predicate FloorsBehind(y: System) {
    forall j :: 0 <= j < |y.flight| ==> y.flight[j].floor <= y.snd.retirePriorTo
  }

  /** What every run keeps whose frames are built at once, failing renewals included. */
  ghost predicate Sound(y: System) {
    y.open ==> Inv(y) && FloorsReached(y) && FloorsBehind(y)
  }

  /** No held number is written off: whatever lies below the sender's floor is being recalled. */
  ghost predicate Tidy(y: System) {
    forall n: nat :: !WrittenOff(y, n)
  }

  /** The guards of `new_scid`: it adds the ID unless the queue is full or the token or ID will not do. */
  predicate Adds(s: Source, cid: Cid, token: Option<nat>, retireIfNeeded: bool) {
    && (|s.scids.inner| < s.limit || RaisesFloor(s, retireIfNeeded))
    && token.Some? && IndexOfCid(s.scids.inner, cid) == |s.scids.inner| && |s.scids.inner| < s.scids.capacity
  }

  /** The number a floor-raising call passes. */
  function Passed(s: Source): nat {
    var low := LowestUsable(s.scids.inner, s.retirePriorTo);
    if low.Some? then low.value else 0
  }

  /**
   How an event changes the set of written-off numbers: an issue that adds its ID settles everything, one
   that raises the floor and fails writes the passed number off if the receiver holds it, and giving up
   an ID takes it out.
   */
  ghost function Account(y: System, ev: Event, off: set<nat>): set<nat> {
    if ev.Issue? && Adds(y.snd, ev.cid, ev.token, ev.retireIfNeeded) then {}
    else if ev.Issue? && RaisesFloor(y.snd, ev.retireIfNeeded) && Held(y, Passed(y.snd)) then off + {Passed(y.snd)}
    else if ev.GiveUpDcid? && ev.num in Nums(y.rcv.dcids.inner) && |y.rcv.dcids.inner| >= 2 then off - {ev.num}
    else off
  }

  /** The same over a run. */
  ghost function RunAccount(y: System, events: seq<Event>, off: set<nat>): set<nat>
    decreases |events|
  {
    if events == [] then off else RunAccount(Step(y, events[0]), events[1..], Account(y, events[0], off))
  }

  // -------------------------------------------------------------------------
  // Each event
  // -------------------------------------------------------------------------

  lemma AddsIff(s: Source, cid: Cid, token: Option<nat>, path: Option<FourTuple>, retireIfNeeded: bool)
    requires SourceInv(s)
    ensures var r := NewScid(s, cid, token, path, retireIfNeeded).1;
            r.Ok? && r.value.0 <==> Adds(s, cid, token, retireIfNeeded)
  {
    hide IndexOf, IndexOfCid, LowestUsable, Increasing, DistinctCids;
    assert IndexOf(s.scids.inner, s.nextSeq) == |s.scids.inner|;
  }

  /** The floor only moves in `new_scid` when it is raised for a full queue, and then past one number. */
  lemma FloorMoves(s: Source, cid: Cid, token: Option<nat>, path: Option<FourTuple>, retireIfNeeded: bool)
    requires SourceInv(s)
    ensures NewScid(s, cid, token, path, retireIfNeeded).0.retirePriorTo ==
              if RaisesFloor(s, retireIfNeeded) then Passed(s) + 1 else s.retirePriorTo
    ensures RaisesFloor(s, retireIfNeeded) ==> Passed(s) >= s.retirePriorTo
    ensures RaisesFloor(s, retireIfNeeded) ==>
              forall n :: n in Nums(s.scids.inner) && s.retirePriorTo <= n <= Passed(s) ==> n == Passed(s)
  {
    assert forall n :: n in Nums(s.scids.inner) && s.retirePriorTo <= n ==> n in Usable(s.scids.inner, s.retirePriorTo);
  }

  lemma RecalledStill(flight: seq<NewCid>, f: NewCid, n: nat)
    ensures Recalled(flight + [f], n) <==> Recalled(flight, n) || n < f.floor
  {
    var more := flight + [f];
    assert more[|flight|] == f && forall j :: 0 <= j < |flight| ==> more[j] == flight[j];
  }

  /** A frame sent with the floor in force recalls everything below it. */
  lemma SentSettles(y: System, s: Source, f: NewCid)
    requires f.num >= s.retirePriorTo && f.floor == s.retirePriorTo
    ensures Tidy(y.(snd := s, flight := y.flight + [f]))
  {
    var z := y.(snd := s, flight := y.flight + [f]);
    forall n: nat ensures !WrittenOff(z, n) {
      RecalledStill(y.flight, f, n);
    }
  }

  /** An issue that adds its ID leaves nothing written off, whatever failed before. */
  lemma IssueSettles(y: System, ev: Event)
    requires y.open && Sound(y) && ev.Issue? && ev.sendNow && Adds(y.snd, ev.cid, ev.token, ev.retireIfNeeded)
    ensures Step(y, ev).open && Sound(Step(y, ev)) && Tidy(Step(y, ev))
  {
    hide NewScid, SourceInv, Inv, RaisesFloor, Adds, Tidy;
    InvParts(y);
    var (s, r) := NewScid(y.snd, ev.cid, ev.token, ev.path, ev.retireIfNeeded);
    AddsIff(y.snd, ev.cid, ev.token, ev.path, ev.retireIfNeeded);
    StepKeeps(y, ev);
    PromptStep(y, ev);
    NewScidKeeps(y.snd, ev.cid, ev.token, ev.path, ev.retireIfNeeded);
    IssueStores(y.snd, ev.cid, ev.token, ev.path, ev.retireIfNeeded);
    IssuedAboveFloor(y.snd, ev.cid, ev.token, ev.path, ev.retireIfNeeded);
    NumsAppend(y.snd.scids.inner, Entry(ev.cid, r.value.1, ev.token, ev.path));
    NextIsPositive(y.snd);
    FrameExists(s, r.value.1);
    var f := FrameFor(s, r.value.1).value;
    assert Step(y, ev) == y.(snd := s, flight := y.flight + [f]);
    SentSettles(y, s, f);
  }

  /** An issue that adds nothing can only write off the number it passed. */
  lemma IssueWritesOff(y: System, ev: Event, n: nat)
    requires y.open && Sound(y) && ev.Issue? && ev.sendNow && !Adds(y.snd, ev.cid, ev.token, ev.retireIfNeeded)
    ensures Sound(Step(y, ev))
    ensures WrittenOff(Step(y, ev), n) <==>
              WrittenOff(y, n) || (RaisesFloor(y.snd, ev.retireIfNeeded) && n == Passed(y.snd) && Held(y, n))
  {
    hide NewScid, SourceInv, Inv, RaisesFloor, Adds, Nums, FlightNums, Passed;
    InvParts(y);
    var (s, r) := NewScid(y.snd, ev.cid, ev.token, ev.path, ev.retireIfNeeded);
    AddsIff(y.snd, ev.cid, ev.token, ev.path, ev.retireIfNeeded);
    StepKeeps(y, ev);
    PromptStep(y, ev);
    NewScidKeeps(y.snd, ev.cid, ev.token, ev.path, ev.retireIfNeeded);
    FloorMoves(y.snd, ev.cid, ev.token, ev.path, ev.retireIfNeeded);
    var z := Step(y, ev);
    assert z == y.(snd := s);
    assert Held(z, n) <==> Held(y, n);
    if Held(y, n) {
      HeldIsStored(y, n);
    }
  }

  lemma InvParts(y: System)
    requires y.open && Inv(y)
    ensures SourceInv(y.snd) && DestinationInv(y.rcv)
  {
  }

  lemma NextIsPositive(s: Source)
    requires SourceInv(s)
    ensures s.nextSeq >= 1
  {
  }

  /** The receiver `d` is what the delivery of the head frame made of it. */
  ghost predicate Stores(y: System, d: Destination) {
    && y.flight != [] && Ascending(FlightNums(y.flight)) && y.flight[0].floor <= y.flight[0].num
    && Nums(d.dcids.inner) == Nums(y.rcv.dcids.inner) - Below(y.rcv.dcids.inner, y.flight[0].floor) + {y.flight[0].num}
  }

  /** After a delivery the receiver holds what it held at or above the frame's floor. */
  lemma HeldAfter(y: System, d: Destination, n: nat)
    requires Stores(y, d)
    ensures Held(y.(rcv := d, flight := y.flight[1..]), n) <==> Held(y, n) && n >= y.flight[0].floor
  {
    var ns, ms := FlightNums(y.flight), FlightNums(y.flight[1..]);
    assert ns[0] == y.flight[0].num;
    if n in ms {
      var i :| 0 <= i < |ms| && ms[i] == n;
      assert ns[i + 1] == n && ns[0] < ns[i + 1];
    }
    if n in ns && n != ns[0] {
      var i :| 0 <= i < |ns| && ns[i] == n;
      assert ms[i - 1] == n;
    }
    if n in ns {
      var i :| 0 <= i < |ns| && ns[i] == n;
      assert ns[0] <= ns[i];
    }
  }

  lemma TailRecalls(flight: seq<NewCid>, n: nat)
    requires flight != [] && n >= flight[0].floor
    ensures Recalled(flight[1..], n) <==> Recalled(flight, n)
  {
    if j :| 0 <= j < |flight| && n < flight[j].floor {
      assert flight[1..][j - 1] == flight[j];
    }
  }

  lemma BelowHeadIsRecalled(flight: seq<NewCid>, n: nat)
    requires flight != [] && n < flight[0].floor
    ensures Recalled(flight, n)
  {
  }

  lemma FlightAscends(y: System)
    requires y.open && Inv(y)
    ensures Ascending(FlightNums(y.flight))
  {
    var ns := FlightNums(y.flight);
    forall i, j | 0 <= i < j < |ns| ensures ns[i] < ns[j] {
      assert Pending(y)[i] == ns[i] && Pending(y)[j] == ns[j];
    }
  }

  lemma DeliverKeepsAccount(y: System, n: nat)
    requires y.open && Sound(y) && y.flight != []
    ensures Sound(Step(y, Deliver)) && (WrittenOff(Step(y, Deliver), n) <==> WrittenOff(y, n))
  {
    hide NewDcid, Inv, DestinationInv, Nums, Pairs, Below, Recalled, Held;
    InvParts(y);
    StepKeeps(y, Deliver);
    PromptStep(y, Deliver);
    DeliveryOutcome(y);
    var f := y.flight[0];
    var (d, r) := NewDcid(y.rcv, f.cid, f.num, f.token, f.floor);
    assert Step(y, Deliver) == y.(rcv := d, flight := y.flight[1..], open := r.Ok?);
    HeadIsInOrder(y);
    NewDcidExact(y.rcv, f.cid, f.num, f.token, f.floor);
    FlightAscends(y);
    assert r.Ok?;
    HeldAfter(y, d, n);
    if n >= f.floor {
      TailRecalls(y.flight, n);
    } else {
      BelowHeadIsRecalled(y.flight, n);
    }
  }

  /** A retired number takes nothing with it: the floor rises at most to the least number still usable. */
  lemma RetirementFloor(s: Source, num: nat, pktDcid: Cid, n: nat)
    requires SourceInv(s) && RetireScid(s, num, pktDcid).1.Ok?
    requires n in Nums(s.scids.inner) && n != num && n < RetireScid(s, num, pktDcid).0.retirePriorTo
    ensures n < s.retirePriorTo
  {
    RemoveKeeps(s.scids, num, s.closing);
    var q := s.scids.Remove(num, s.closing).value.0;
    assert n in Nums(q.inner);
    assert n >= s.retirePriorTo ==> n in Usable(q.inner, s.retirePriorTo);
  }

  lemma AcceptKeepsAccount(y: System, i: nat, pktDcid: Cid, n: nat)
    requires y.open && Sound(y) && i < |y.back| && Step(y, AcceptRetire(i, pktDcid)).open
    ensures Sound(Step(y, AcceptRetire(i, pktDcid)))
    ensures WrittenOff(Step(y, AcceptRetire(i, pktDcid)), n) <==> WrittenOff(y, n)
  {
    hide RetireScid, Inv, SourceInv, Nums, Pending, Recalled, FlightNums;
    var ev := AcceptRetire(i, pktDcid);
    InvParts(y);
    StepKeeps(y, ev);
    PromptStep(y, ev);
    RetireScidKeeps(y.snd, y.back[i], pktDcid);
    var z := Step(y, ev);
    assert Held(z, n) <==> Held(y, n);
    if Held(y, n) && n < z.snd.retirePriorTo {
      HeldIsStored(y, n);
      HeldIsElsewhere(y, i, n);
      RetirementFloor(y.snd, y.back[i], pktDcid, n);
    }
  }

  lemma HeldIsStored(y: System, n: nat)
    requires y.open && Inv(y) && Held(y, n)
    ensures n in Nums(y.snd.scids.inner)
  {
    OnePlace(Nums(y.snd.scids.inner), Nums(y.rcv.dcids.inner), y.rcv.retired, y.back, Pending(y));
    assert n in FlightNums(y.flight) ==> n in Pending(y);
  }

  lemma HeldIsElsewhere(y: System, i: nat, n: nat)
    requires y.open && Inv(y) && Held(y, n) && i < |y.back|
    ensures n != y.back[i]
  {
    OnePlace(Nums(y.snd.scids.inner), Nums(y.rcv.dcids.inner), y.rcv.retired, y.back, Pending(y));
    assert n in FlightNums(y.flight) ==> n in Pending(y);
    assert y.back[i] in y.back;
  }

  lemma GiveUpTakesOut(y: System, num: nat, n: nat)
    requires y.open && Sound(y)
    ensures Sound(Step(y, GiveUpDcid(num))) && Step(y, GiveUpDcid(num)).open
    ensures WrittenOff(Step(y, GiveUpDcid(num)), n) <==>
              WrittenOff(y, n) && !(n == num && n in Nums(y.rcv.dcids.inner) && |y.rcv.dcids.inner| >= 2)
  {
    hide RetireDcid, Inv, DestinationInv, SourceInv, Nums, Pairs, Recalled, FlightNums;
    InvParts(y);
    var ev := GiveUpDcid(num);
    GiveUpKeeps(y, num);
    PromptStep(y, ev);
    RetireDcidExact(y.rcv, num);
    if n == num && n in Nums(y.rcv.dcids.inner) {
      ActiveIsNotOnTheWay(y, n);
    }
  }

  lemma ActiveIsNotOnTheWay(y: System, n: nat)
    requires y.open && Inv(y) && n in Nums(y.rcv.dcids.inner)
    ensures n !in FlightNums(y.flight)
  {
    OnePlace(Nums(y.snd.scids.inner), Nums(y.rcv.dcids.inner), y.rcv.retired, y.back, Pending(y));
    assert n in FlightNums(y.flight) ==> n in Pending(y);
  }

  lemma OthersKeepAccount(y: System, ev: Event, n: nat)
    requires y.open && Sound(y) && (ev.Announce? || ev.RaiseLimit? || ev.Advertise?)
    ensures Sound(Step(y, ev)) && (WrittenOff(Step(y, ev), n) <==> WrittenOff(y, n))
  {
    hide Inv, Nums, FlightNums, Recalled;
    StepKeeps(y, ev);
    PromptStep(y, ev);
  }

  /** The written-off numbers after an event are what `Account` says. */
  lemma StepAccount(y: System, ev: Event, off: set<nat>)
    requires y.open && Sound(y) && (ev.Issue? ==> ev.sendNow) && Step(y, ev).open
    requires forall n: nat :: n in off <==> WrittenOff(y, n)
    ensures Sound(Step(y, ev)) && forall n: nat :: n in Account(y, ev, off) <==> WrittenOff(Step(y, ev), n)
  {
    hide Sound, WrittenOff, Step, Held, Nums, Adds, RaisesFloor, Passed, Tidy;
    forall n: nat
      ensures Sound(Step(y, ev)) && (n in Account(y, ev, off) <==> WrittenOff(Step(y, ev), n))
    {
      EventAccount(y, ev, off, n);
    }
    EventAccount(y, ev, off, 0);
  }

  lemma EventAccount(y: System, ev: Event, off: set<nat>, n: nat)
    requires y.open && Sound(y) && (ev.Issue? ==> ev.sendNow) && Step(y, ev).open
    requires n in off <==> WrittenOff(y, n)
    ensures Sound(Step(y, ev)) && (n in Account(y, ev, off) <==> WrittenOff(Step(y, ev), n))
  {
    hide Sound, WrittenOff, Held, Nums, Adds, RaisesFloor, Passed, NewScid, NewDcid, RetireDcid, RetireScid;
    match ev {
      case Issue(_, _, _, _, _) =>
        if Adds(y.snd, ev.cid, ev.token, ev.retireIfNeeded) {
          IssueSettles(y, ev);
        } else {
          IssueWritesOff(y, ev, n);
        }
      case Deliver =>
        if y.flight != [] {
          DeliverKeepsAccount(y, n);
        }
      case GiveUpDcid(num) => GiveUpTakesOut(y, num, n);
      case AcceptRetire(i, pktDcid) =>
        if i < |y.back| {
          AcceptKeepsAccount(y, i, pktDcid, n);
        }
      case _ => OthersKeepAccount(y, ev, n);
    }
  }

  /**
   From a state with nothing written off, an event leaves it so exactly when it is not an issue that raises
   the floor past a number the receiver holds and then fails a guard.
   */
  lemma StepTidyIff(y: System, ev: Event)
    requires y.open && Sound(y) && Tidy(y) && (ev.Issue? ==> ev.sendNow) && Step(y, ev).open
    ensures Tidy(Step(y, ev)) <==>
              !(ev.Issue? && RaisesFloor(y.snd, ev.retireIfNeeded) && Held(y, Passed(y.snd))
                && !Adds(y.snd, ev.cid, ev.token, ev.retireIfNeeded))
  {
    hide WrittenOff, Step, Held, Adds, RaisesFloor, Passed, Sound;
    StepAccount(y, ev, {});
    if ev.Issue? && RaisesFloor(y.snd, ev.retireIfNeeded) && Held(y, Passed(y.snd))
       && !Adds(y.snd, ev.cid, ev.token, ev.retireIfNeeded) {
      assert Passed(y.snd) in Account(y, ev, {});
    }
  }

  // -------------------------------------------------------------------------
  // Theorems over every run
  // -------------------------------------------------------------------------

  lemma ClosedStays(y: System, events: seq<Event>)
    requires !y.open
    ensures CidProtocol.Run(y, events) == y
    decreases |events|
  {
    if events != [] {
      ClosedStays(y, events[1..]);
    }
  }

  /**
   Over every run whose frames are built at once, failing renewals included: no frame on the way is ahead of
   the floor, and the numbers written off are exactly those `RunAccount` names.
   */
  lemma {:induction false} RunWritesOff(y: System, events: seq<Event>, off: set<nat>)
    requires Sound(y) && Prompt(events) && CidProtocol.Run(y, events).open
    requires forall n: nat :: n in off <==> WrittenOff(y, n)
    ensures var z := CidProtocol.Run(y, events);
            Sound(z) && forall n: nat :: n in RunAccount(y, events, off) <==> WrittenOff(z, n)
    decreases |events|
  {
    hide Sound, WrittenOff, Step, Account;
    if events != [] {
      if !y.open {
        ClosedStays(y, events);
      }
      if !Step(y, events[0]).open {
        ClosedStays(Step(y, events[0]), events[1..]);
      }
      StepAccount(y, events[0], off);
      RunWritesOff(Step(y, events[0]), events[1..], Account(y, events[0], off));
    }
  }

  lemma InitialSound(y: System)
    requires Initial(y)
    ensures Sound(y) && Tidy(y)
  {
    InitialHolds(y);
  }

  /** No frame on the way asks the receiver to retire an ID it uses. */
  ghost predicate NothingRecalled(y: System) {
    forall j :: 0 <= j < |y.flight| ==> Below(y.rcv.dcids.inner, y.flight[j].floor) == {}
  }

  lemma UsableMeansKnown(y: System)
    requires y.open && Sound(y)
    requires Nums(y.rcv.dcids.inner) <= Usable(y.snd.scids.inner, y.snd.retirePriorTo)
    ensures NothingRecalled(y) && forall n :: n in Nums(y.rcv.dcids.inner) ==> !WrittenOff(y, n)
  {
    hide Inv, Nums, Recalled, Held;
    forall n | n in Nums(y.rcv.dcids.inner) ensures n >= y.snd.retirePriorTo {
      assert n in Usable(y.snd.scids.inner, y.snd.retirePriorTo);
    }
  }

  lemma KnownMeansUsable(y: System, n: nat)
    requires y.open && Sound(y) && NothingRecalled(y) && n in Nums(y.rcv.dcids.inner) && !WrittenOff(y, n)
    ensures n in Usable(y.snd.scids.inner, y.snd.retirePriorTo)
  {
    hide Inv, Nums;
    HeldIsStored(y, n);
    forall j | 0 <= j < |y.flight| ensures y.flight[j].floor <= n {
      assert n !in Below(y.rcv.dcids.inner, y.flight[j].floor);
    }
  }

  /** The receiver's active IDs are usable at the sender exactly when none is recalled and none written off. */
  lemma ActiveUsableIff(y: System)
    requires y.open && Sound(y)
    ensures Nums(y.rcv.dcids.inner) <= Usable(y.snd.scids.inner, y.snd.retirePriorTo) <==>
              NothingRecalled(y) && forall n :: n in Nums(y.rcv.dcids.inner) ==> !WrittenOff(y, n)
  {
    hide Sound, NothingRecalled, WrittenOff, Nums, Usable;
    var active, usable := Nums(y.rcv.dcids.inner), Usable(y.snd.scids.inner, y.snd.retirePriorTo);
    if active <= usable {
      UsableMeansKnown(y);
    }
    if NothingRecalled(y) && forall n :: n in active ==> !WrittenOff(y, n) {
      forall n | n in active ensures n in usable {
        KnownMeansUsable(y, n);
      }
    }
  }

  /** The same in every run from the handshake on, with the written-off numbers counted event by event. */
  lemma RunActiveUsableIff(y: System, events: seq<Event>)
    requires Initial(y) && Prompt(events) && CidProtocol.Run(y, events).open
    ensures var z := CidProtocol.Run(y, events);
            Nums(z.rcv.dcids.inner) <= Usable(z.snd.scids.inner, z.snd.retirePriorTo) <==>
              NothingRecalled(z) && Nums(z.rcv.dcids.inner) !! RunAccount(y, events, {})
  {
    hide Sound, WrittenOff, NothingRecalled, Nums, Usable;
    InitialSound(y);
    RunWritesOff(y, events, {});
    ActiveUsableIff(CidProtocol.Run(y, events));
  }

  /** The sender always has a usable ID besides one the receiver asks to retire. */
  lemma UsableRemains(y: System, i: nat)
    requires y.open && Sound(y) && Tidy(y) && i < |y.back|
    ensures Usable(y.snd.scids.inner, y.snd.retirePriorTo) - {y.back[i]} != {}
  {
    hide Inv, DestinationInv;
    InvParts(y);
    var n: nat;
    if y.flight == [] {
      FirstActive(y.rcv);
      n := y.rcv.dcids.inner[0].num;
      assert n in Nums(y.rcv.dcids.inner);
    } else {
      n := LastSent(y);
    }
    assert Held(y, n);
    HeldIsStored(y, n);
    HeldIsElsewhere(y, i, n);
    assert !WrittenOff(y, n);
    assert n in Usable(y.snd.scids.inner, y.snd.retirePriorTo) - {y.back[i]};
  }

  lemma FirstActive(d: Destination)
    requires DestinationInv(d)
    ensures d.dcids.inner != []
  {
  }

  /** The last number sent lies above every floor on the way, so it is usable. */
  lemma LastSent(y: System) returns (n: nat)
    requires y.open && Sound(y) && Tidy(y) && y.flight != []
    ensures n in FlightNums(y.flight) && n >= y.snd.retirePriorTo
  {
    hide Inv;
    var ns := FlightNums(y.flight);
    n := ns[|ns| - 1];
    FlightAscends(y);
    assert Held(y, n);
    forall j | 0 <= j < |y.flight| ensures y.flight[j].floor <= n {
      assert y.flight[j].num == ns[j] <= n;
    }
    assert !WrittenOff(y, n);
  }

  /** When nothing is written off, a retire request is refused exactly when it came on the very ID it retires. */
  lemma RunRetireRefusedIff(y: System, events: seq<Event>, i: nat, pktDcid: Cid)
    requires Initial(y) && Prompt(events) && CidProtocol.Run(y, events).open && RunAccount(y, events, {}) == {}
    requires i < |CidProtocol.Run(y, events).back|
    ensures var z := CidProtocol.Run(y, events);
            !Step(z, AcceptRetire(i, pktDcid)).open <==> (z.back[i], pktDcid) in Pairs(z.snd.scids.inner)
  {
    hide Usable, Step, WrittenOff;
    InitialSound(y);
    RunWritesOff(y, events, {});
    UsableRemains(CidProtocol.Run(y, events), i);
    AcceptOutcome(CidProtocol.Run(y, events), i, pktDcid);
  }

  // -------------------------------------------------------------------------
  // Two ways to use an ID the sender has written off
  // -------------------------------------------------------------------------

  /** Both issued IDs on the way, the second with floor 1. */
  function BothOnTheWay(c0: Cid, c1: Cid, c2: Cid): System {
    PairOfTwo(c0).(snd := ThreeIds(c0, c1, c2, 1), flight := [NewCid(1, 0, c1, 1), NewCid(2, 1, c2, 2)])
  }

  /** Both frames delivered: the receiver uses 1 and 2 and has 0 to retire. */
  function BothDelivered(c0: Cid, c1: Cid, c2: Cid): System {
    PairOfTwo(c0).(
      snd := ThreeIds(c0, c1, c2, 1),
      rcv := Destination(Deque([Entry(c1, 1, Some(1), None), Entry(c2, 2, Some(2), None)], 2), {0}, 6, 1, 2, false, true))
  }

  lemma IssueTwo(c0: Cid, c1: Cid, c2: Cid)
    requires c0 != c1 && c0 != c2 && c1 != c2
    ensures var y1 := Step(PairOfTwo(c0), Event.Issue(c1, Some(1), None, false, true));
            Step(y1, Event.Issue(c2, Some(2), None, true, true)) == BothOnTheWay(c0, c1, c2)
  {
    hide NewScid;
    FirstIssue(c0, c1, false);
    var y1 := Step(PairOfTwo(c0), Event.Issue(c1, Some(1), None, false, true));
    assert TwoIds(c0, c1).scids.inner[1].num == 1;
    assert FrameFor(TwoIds(c0, c1), 1) == Ok(NewCid(1, 0, c1, 1));
    assert y1 == PairOfTwo(c0).(snd := TwoIds(c0, c1), flight := [NewCid(1, 0, c1, 1)]);
    RenewalAdds(c0, c1, c2);
    var es := ThreeIds(c0, c1, c2, 1).scids.inner;
    assert es[0].num == 0 && es[1].num == 1 && es[2].num == 2;
    assert IndexOf(es, 2) == 2;
    assert FrameFor(ThreeIds(c0, c1, c2, 1), 2) == Ok(NewCid(2, 1, c2, 2));
  }

  /** A raising frame on the way: the receiver still uses ID 0, which the sender no longer counts as usable. */
  lemma RecalledButActive(c0: Cid, c1: Cid, c2: Cid)
    requires c0 != c1 && c0 != c2 && c1 != c2
    ensures var y1 := Step(PairOfTwo(c0), Event.Issue(c1, Some(1), None, false, true));
            var y2 := Step(y1, Event.Issue(c2, Some(2), None, true, true));
            y2.open && !(Nums(y2.rcv.dcids.inner) <= Usable(y2.snd.scids.inner, y2.snd.retirePriorTo))
  {
    hide NewScid, Step;
    IssueTwo(c0, c1, c2);
    var y2 := BothOnTheWay(c0, c1, c2);
    assert y2.rcv.dcids.inner[0].num == 0;
    assert 0 in Nums(y2.rcv.dcids.inner) && 0 !in Usable(y2.snd.scids.inner, 1);
  }

  lemma DeliverFirst(c0: Cid, c1: Cid, c2: Cid)
    requires c0 != c1 && c0 != c2 && c1 != c2
    ensures Step(BothOnTheWay(c0, c1, c2), Deliver) ==
              BothOnTheWay(c0, c1, c2).(
                rcv := Destination(Deque([Entry(c0, 0, None, None), Entry(c1, 1, Some(1), None)], 2), {}, 6, 0, 1, false, true),
                flight := [NewCid(2, 1, c2, 2)])
  {
    var d := FreshDestination(c0, None, None, 2);
    assert IndexOfEither(d.dcids.inner, c1, 1) == 1 && IndexOf(d.dcids.inner, 1) == 1;
    assert d.dcids.inner + [Entry(c1, 1, Some(1), None)] == [Entry(c0, 0, None, None), Entry(c1, 1, Some(1), None)];
  }

  lemma DeliverSecond(c0: Cid, c1: Cid, c2: Cid)
    requires c0 != c1 && c0 != c2 && c1 != c2
    ensures Step(Step(BothOnTheWay(c0, c1, c2), Deliver), Deliver) == BothDelivered(c0, c1, c2)
  {
    DeliverFirst(c0, c1, c2);
    var es := [Entry(c0, 0, None, None), Entry(c1, 1, Some(1), None)];
    assert es[0].num == 0 && es[1].num == 1;
    assert IndexOfEither(es, c2, 2) == 2;
    assert es[1..][0].num == 1;
    assert PartitionPoint(es, 1) == 1;
    assert es[..1] == [es[0]] && es[1..] == [es[1]] && [es[0]][1..] == [];
    assert RetireAll({}, 6, [es[0]]) == RetireAll({} + {0}, 6, []) == ({0}, true);
    assert IndexOf([es[1]], 2) == 1;
  }

  /** A renewal that failed: nothing is on the way, and the receiver uses ID 1 below the sender's floor 2. */
  lemma WrittenOffButActive(c0: Cid, c1: Cid, c2: Cid, c3: Cid)
    requires c0 != c1 && c0 != c2 && c1 != c2 && c3 != c0 && c3 != c1 && c3 != c2
    ensures var y2 := BothOnTheWay(c0, c1, c2);
            var y4 := Step(Step(y2, Deliver), Deliver);
            var y5 := Step(y4, Event.Issue(c3, Some(3), None, true, true));
            && y5.open && y5.flight == []
            && Nums(y4.rcv.dcids.inner) <= Usable(y4.snd.scids.inner, y4.snd.retirePriorTo)
            && !(Nums(y5.rcv.dcids.inner) <= Usable(y5.snd.scids.inner, y5.snd.retirePriorTo))
  {
    hide NewScid, NewDcid, Step;
    DeliverSecond(c0, c1, c2);
    var y4 := BothDelivered(c0, c1, c2);
    RenewalFails(c0, c1, c2, c3, 1);
    FailedRenewalStep(y4, c3);
    var es, ds := y4.snd.scids.inner, y4.rcv.dcids.inner;
    assert es[1].num == 1 && es[2].num == 2 && ds[0].num == 1 && ds[1].num == 2;
    assert Nums(ds) == {1, 2} && 1 in Nums(es) && 2 in Nums(es);
    assert 1 !in Usable(es, 2);
  }

  lemma FailedRenewalStep(y: System, cid: Cid)
    requires y.open && NewScid(y.snd, cid, Some(3), None, true).1.Err?
    ensures Step(y, Event.Issue(cid, Some(3), None, true, true)) == y.(snd := NewScid(y.snd, cid, Some(3), None, true).0)
  {
    hide NewScid;
  }
}
