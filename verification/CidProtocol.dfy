/**
 The connection-ID protocol between two endpoints (sections 5.1.1, 5.1.2 and 19.15 of RFC 9000):
 one side issues source IDs and builds NEW_CONNECTION_ID frames, the other stores them as
 destination IDs and answers with RETIRE_CONNECTION_ID. Frames one way arrive in order; retire
 requests the other way may overtake each other. Every interleaving is a run of `Step`.
 */
module CidProtocol {
  import opened Common
  import opened CidSpec
  import opened SourceRuns
  import opened DestinationRuns

  /** The fields of a NEW_CONNECTION_ID frame in flight. */
  datatype NewCid = NewCid(num: nat, floor: nat, cid: Cid, token: nat)

  /** `get_path_connection_id_frame_for`: a frame carries the floor in force when it is built. */
  function FrameFor(s: Source, num: nat): Result<NewCid> {
    var i := IndexOf(s.scids.inner, num);
    if i == |s.scids.inner| || s.scids.inner[i].token.None? then Err(InvalidState)
    else Ok(NewCid(num, s.retirePriorTo, s.scids.inner[i].cid, s.scids.inner[i].token.value))
  }

  /**
   Both endpoints and the network. `queued` are issued numbers whose frame is not built yet,
   `flight` the frames sent and not delivered, `back` the retire requests sent and not received.
   The connection stays `open` until an operation on a received frame reports an error;
   a refused call of the application leaves it open.
   */
  datatype System = System(
    snd: Source, rcv: Destination, queued: seq<nat>, flight: seq<NewCid>, back: seq<nat>, open: bool)

  datatype Event =
    | Issue(cid: Cid, token: Option<nat>, path: Option<FourTuple>, retireIfNeeded: bool, sendNow: bool)
    | Advertise
    | RaiseLimit(v: nat)
    | Deliver
    | GiveUpDcid(num: nat)
    | Announce(num: nat)
    | AcceptRetire(i: nat, pktDcid: Cid)

  function Send(y: System, num: nat): System {
    match FrameFor(y.snd, num)
    case Ok(f) => y.(flight := y.flight + [f])
    case Err(_) => y.(open := false)
  }

  function Step(y: System, ev: Event): System {
    if !y.open then y
    else
      match ev
      case Issue(cid, token, path, retireIfNeeded, sendNow) =>
        var (s, r) := NewScid(y.snd, cid, token, path, retireIfNeeded);
        if r.Err? || !r.value.0 then y.(snd := s)
        else if sendNow && y.queued == [] then Send(y.(snd := s), r.value.1)
        else y.(snd := s, queued := y.queued + [r.value.1])
      case Advertise =>
        if y.queued == [] then y else Send(y.(queued := y.queued[1..]), y.queued[0])
      case RaiseLimit(v) =>
        if y.snd.limit <= v <= y.rcv.dcids.capacity then y.(snd := SetSourceLimit(y.snd, v)) else y
      case Deliver =>
        if y.flight == [] then y
        else
          var f := y.flight[0];
          var (d, r) := NewDcid(y.rcv, f.cid, f.num, f.token, f.floor);
          y.(rcv := d, flight := y.flight[1..], open := r.Ok?)
      case GiveUpDcid(num) =>
        y.(rcv := RetireDcid(y.rcv, num).0)
      case Announce(num) =>
        if num in y.rcv.retired then y.(rcv := y.rcv.(retired := y.rcv.retired - {num}), back := y.back + [num]) else y
      case AcceptRetire(i, pktDcid) =>
        if i >= |y.back| then y
        else
          var (s, r) := RetireScid(y.snd, y.back[i], pktDcid);
          y.(snd := s, back := y.back[..i] + y.back[i + 1..], open := r.Ok?)
  }

  function Run(y: System, events: seq<Event>): System
    decreases |events|
  {
    if events == [] then y else Run(Step(y, events[0]), events[1..])
  }

  /** After the handshake: both sides know ID 0 and the receiver's limit covers the sender's. */
  ghost predicate Initial(y: System) {
    exists cid, token, path, peerPath, senderLimit, receiverLimit ::
      && 2 <= senderLimit <= receiverLimit && senderLimit <= USIZE_MAX / 2
      && y == System(FreshSource(cid, token, path, senderLimit),
                     FreshDestination(cid, token, peerPath, receiverLimit), [], [], [], true)
  }

  // -------------------------------------------------------------------------
  // The invariant
  // -------------------------------------------------------------------------

  function FlightNums(fs: seq<NewCid>): (ns: seq<nat>)
    ensures |ns| == |fs| && forall i :: 0 <= i < |fs| ==> ns[i] == fs[i].num
  {
    seq(|fs|, i requires 0 <= i < |fs| => fs[i].num)
  }

  ghost predicate Ascending(ns: seq<nat>) {
    forall i, j :: 0 <= i < j < |ns| ==> ns[i] < ns[j]
  }

  /** Numbers issued and not delivered: in a frame on the way, or not advertised yet. */
  function Pending(y: System): seq<nat> {
    FlightNums(y.flight) + y.queued
  }

  /**
   Conservation: every number the sender stores is in exactly one place - active at the receiver,
   waiting in its retire queue, in a retire request on the way back, or still pending.
   */
  ghost predicate Conserved(stored: set<nat>, active: set<nat>, retired: set<nat>, back: seq<nat>, pending: seq<nat>) {
    multiset(stored) == multiset(active) + multiset(retired) + multiset(back) + multiset(pending)
  }

  ghost function SentUpTo(flight: seq<NewCid>, j: nat): set<nat>
    requires j < |flight|
  {
    set i | 0 <= i <= j :: flight[i].num
  }

  /** What the receiver can hold, at most, at or above the floor of frame `j` when that frame arrives. */
  ghost function Window(active: set<nat>, flight: seq<NewCid>, j: nat): set<nat>
    requires j < |flight|
  {
    var all := active + SentUpTo(flight, j);
    set n | n in all && n >= flight[j].floor
  }

  ghost predicate WindowsFit(active: set<nat>, flight: seq<NewCid>, capacity: nat) {
    forall j :: 0 <= j < |flight| ==> |Window(active, flight, j)| <= capacity
  }

  ghost predicate Ordered(largest: nat, pending: seq<nat>) {
    Ascending(pending) && forall i :: 0 <= i < |pending| ==> pending[i] > largest
  }

  /** Both ends and every frame agree on which connection ID a number stands for. */
  ghost predicate Agree(es: seq<Entry>, ds: seq<Entry>, flight: seq<NewCid>) {
    && Pairs(ds) <= Pairs(es)
    && (forall i :: 0 <= i < |flight| ==> (flight[i].num, flight[i].cid) in Pairs(es))
  }

  ghost predicate Inv(y: System) {
    y.open ==>
      && SourceInv(y.snd) && !y.snd.closing
      && DestinationInv(y.rcv) && !y.rcv.closing
      && Conserved(Nums(y.snd.scids.inner), Nums(y.rcv.dcids.inner), y.rcv.retired, y.back, Pending(y))
      && Ordered(y.rcv.largestSeq, Pending(y)) && y.rcv.largestSeq < y.snd.nextSeq
      && Agree(y.snd.scids.inner, y.rcv.dcids.inner, y.flight)
      && WindowsFit(Nums(y.rcv.dcids.inner), y.flight, y.rcv.dcids.capacity)
      && y.snd.scids.capacity == 2 * y.snd.limit - 1 && y.snd.limit <= USIZE_MAX / 2
      && y.snd.limit <= y.rcv.dcids.capacity && 2 * y.rcv.dcids.capacity <= y.rcv.retiredCapacity
  }

  // -------------------------------------------------------------------------
  // Multisets of sets
  // -------------------------------------------------------------------------

  lemma AddOne(s: set<nat>, n: nat)
    requires n !in s
    ensures multiset(s + {n}) == multiset(s) + multiset{n}
  {
  }

  lemma Split(s: set<nat>, t: set<nat>)
    requires t <= s
    ensures multiset(s) == multiset(s - t) + multiset(t)
  {
  }

  /** Where a conserved number can be: only one place, and the sender stores it. */
  lemma OnePlace(stored: set<nat>, active: set<nat>, retired: set<nat>, back: seq<nat>, pending: seq<nat>)
    requires Conserved(stored, active, retired, back, pending)
    ensures active <= stored && retired <= stored
    ensures forall n :: n in back ==> n in stored && n !in active && n !in retired && n !in pending
    ensures forall n :: n in pending ==> n in stored && n !in active && n !in retired
    ensures active !! retired
  {
    forall n ensures multiset(stored)[n] ==
        multiset(active)[n] + multiset(retired)[n] + multiset(back)[n] + multiset(pending)[n] <= 1 {
    }
    forall n | n in back ensures n in stored && n !in active && n !in retired && n !in pending {
      assert multiset(back)[n] > 0;
    }
    forall n | n in pending ensures n in stored && n !in active && n !in retired {
      assert multiset(pending)[n] > 0;
    }
    forall n | n in active ensures n in stored && n !in retired {
      assert multiset(active)[n] > 0;
    }
    forall n | n in retired ensures n in stored {
      assert multiset(retired)[n] > 0;
    }
  }

  // -------------------------------------------------------------------------
  // Each event
  // -------------------------------------------------------------------------

  /** The sender's next number is free, so issuing it extends the pending line. */
  lemma IssueConserves(stored: set<nat>, active: set<nat>, retired: set<nat>, back: seq<nat>, pending: seq<nat>, num: nat)
    requires Conserved(stored, active, retired, back, pending) && num !in stored
    ensures Conserved(stored + {num}, active, retired, back, pending + [num])
  {
    AddOne(stored, num);
  }

  lemma DeliverConserves(stored: set<nat>, active: set<nat>, below: set<nat>, retired: set<nat>,
                         back: seq<nat>, pending: seq<nat>)
    requires Conserved(stored, active, retired, back, pending)
    requires pending != [] && below <= active && active !! retired && pending[0] !in active
    ensures Conserved(stored, active - below + {pending[0]}, retired + below, back, pending[1..])
  {
    Split(active, below);
    AddOne(active - below, pending[0]);
    Split(retired + below, below);
    assert retired + below - below == retired;
    assert pending == [pending[0]] + pending[1..];
  }

  lemma GiveUpConserves(stored: set<nat>, active: set<nat>, retired: set<nat>, back: seq<nat>, pending: seq<nat>, num: nat)
    requires Conserved(stored, active, retired, back, pending) && num in active && num !in retired
    ensures Conserved(stored, active - {num}, retired + {num}, back, pending)
  {
    Split(active, {num});
    AddOne(retired, num);
  }

  lemma AnnounceConserves(stored: set<nat>, active: set<nat>, retired: set<nat>, back: seq<nat>, pending: seq<nat>, num: nat)
    requires Conserved(stored, active, retired, back, pending) && num in retired
    ensures Conserved(stored, active, retired - {num}, back + [num], pending)
  {
    Split(retired, {num});
  }

  lemma AcceptConserves(stored: set<nat>, active: set<nat>, retired: set<nat>, back: seq<nat>, pending: seq<nat>, i: nat)
    requires Conserved(stored, active, retired, back, pending) && i < |back| && back[i] in stored
    ensures Conserved(stored - {back[i]}, active, retired, back[..i] + back[i + 1..], pending)
  {
    Split(stored, {back[i]});
    assert back == back[..i] + [back[i]] + back[i + 1..];
    var rest := back[..i] + back[i + 1..];
    assert multiset(back) == multiset(rest) + multiset{back[i]};
    assert multiset(stored - {back[i]}) == multiset(stored) - multiset{back[i]};
    assert multiset(rest) == multiset(back) - multiset{back[i]};
  }

  /** What `new_scid` does to the stored numbers. */
  lemma IssueStores(s: Source, cid: Cid, token: Option<nat>, path: Option<FourTuple>, retireIfNeeded: bool)
    requires SourceInv(s)
    ensures var (t, r) := NewScid(s, cid, token, path, retireIfNeeded);
            && t == s.(scids := t.scids, nextSeq := t.nextSeq, retirePriorTo := t.retirePriorTo)
            && t.scids.capacity == s.scids.capacity
            && (r.Ok? && r.value.0 ==>
                  r.value.1 == s.nextSeq &&
                  t.scids.inner == s.scids.inner + [Entry(cid, s.nextSeq, token, path)])
            && (!(r.Ok? && r.value.0) ==> t.scids == s.scids)
  {
    hide LowestUsable, IndexOf, IndexOfCid, Increasing, DistinctCids;
    var u := Raised(s);
    assert u.scids == s.scids && u.nextSeq == s.nextSeq;
    assert IndexOf(s.scids.inner, s.nextSeq) == |s.scids.inner|;
  }

  /** A stored number above 0 always has a frame, with the floor in force. */
  lemma FrameExists(s: Source, num: nat)
    requires SourceInv(s) && num in Nums(s.scids.inner) && num >= 1
    ensures FrameFor(s, num).Ok?
    ensures FrameFor(s, num).value.num == num && FrameFor(s, num).value.floor == s.retirePriorTo
    ensures (num, FrameFor(s, num).value.cid) in Pairs(s.scids.inner)
  {
    var i := IndexOf(s.scids.inner, num);
    assert i < |s.scids.inner|;
    assert (s.scids.inner[i].num, s.scids.inner[i].cid) in Pairs(s.scids.inner);
  }

  /** A new last frame: the earlier windows are as before, and its own lies within the usable numbers. */
  lemma NewWindowFits(active: set<nat>, flight: seq<NewCid>, f: NewCid, usable: set<nat>, capacity: nat)
    requires WindowsFit(active, flight, capacity)
    requires forall n :: (n in active || n in FlightNums(flight) || n == f.num) && n >= f.floor ==> n in usable
    requires |usable| <= capacity
    ensures WindowsFit(active, flight + [f], capacity)
  {
    var fs := flight + [f];
    forall j | 0 <= j < |fs| ensures |Window(active, fs, j)| <= capacity {
      if j < |flight| {
        assert forall i :: 0 <= i <= j ==> fs[i] == flight[i];
        assert SentUpTo(fs, j) == SentUpTo(flight, j);
        assert Window(active, fs, j) == Window(active, flight, j);
      } else {
        forall n | n in Window(active, fs, j) ensures n in usable {
          if n !in active {
            var i :| 0 <= i <= j && fs[i].num == n;
            assert i < |flight| ==> FlightNums(flight)[i] == n;
          }
        }
        SubsetSize(Window(active, fs, j), usable);
      }
    }
  }

  /** Sending the frame of a pending number keeps every window within the receiver's limit. */
  lemma SendKeeps(y: System, num: nat)
    requires y.open && Inv(y.(queued := [num] + y.queued))
    ensures Send(y, num).open && Inv(Send(y, num))
    ensures Send(y, num) == y.(flight := y.flight + [FrameFor(y.snd, num).value])
  {
    var x := y.(queued := [num] + y.queued);
    var es := y.snd.scids.inner;
    OnePlace(Nums(es), Nums(y.rcv.dcids.inner), y.rcv.retired, y.back, Pending(x));
    assert Pending(x)[|y.flight|] == num;
    FrameExists(y.snd, num);
    var f := FrameFor(y.snd, num).value;
    var usable := Usable(es, y.snd.retirePriorTo);
    forall n | (n in Nums(y.rcv.dcids.inner) || n in FlightNums(y.flight) || n == f.num) && n >= f.floor
      ensures n in usable
    {
      assert n in FlightNums(y.flight) ==> n in Pending(x);
    }
    NewWindowFits(Nums(y.rcv.dcids.inner), y.flight, f, usable, y.rcv.dcids.capacity);
    assert FlightNums(y.flight + [f]) == FlightNums(y.flight) + [num];
    assert Pending(Send(y, num)) == Pending(x);
  }

  /** A number issued and queued. */
  lemma QueueKeeps(y: System, s: Source, e: Entry)
    requires y.open && Inv(y) && SourceInv(s) && e.num == y.snd.nextSeq < s.nextSeq
    requires s.scids.inner == y.snd.scids.inner + [e] && s.scids.capacity == y.snd.scids.capacity
    requires s.limit == y.snd.limit && !s.closing
    ensures Inv(y.(snd := s, queued := y.queued + [e.num]))
  {
    var es := y.snd.scids.inner;
    NumsAppend(es, e);
    PendingBelowNext(y);
    IssueConserves(Nums(es), Nums(y.rcv.dcids.inner), y.rcv.retired, y.back, Pending(y), e.num);
    assert Pending(y.(snd := s, queued := y.queued + [e.num])) == Pending(y) + [e.num];
  }

  lemma IssueKeeps(y: System, ev: Event)
    requires y.open && Inv(y) && ev.Issue?
    ensures Step(y, ev).open && Inv(Step(y, ev))
  {
    var (s, r) := NewScid(y.snd, ev.cid, ev.token, ev.path, ev.retireIfNeeded);
    NewScidKeeps(y.snd, ev.cid, ev.token, ev.path, ev.retireIfNeeded);
    IssueStores(y.snd, ev.cid, ev.token, ev.path, ev.retireIfNeeded);
    if r.Ok? && r.value.0 {
      var num := r.value.1;
      QueueKeeps(y, s, Entry(ev.cid, num, ev.token, ev.path));
      if ev.sendNow && y.queued == [] {
        assert [num] + [] == [] + [num];
        SendKeeps(y.(snd := s), num);
        assert Step(y, ev) == Send(y.(snd := s), num);
      } else {
        assert Step(y, ev) == y.(snd := s, queued := y.queued + [num]);
      }
    } else {
      assert Step(y, ev) == y.(snd := s);
    }
  }

  /** Everything pending, and everything the receiver saw, was issued already. */
  lemma PendingBelowNext(y: System)
    requires y.open && Inv(y)
    ensures forall i :: 0 <= i < |Pending(y)| ==> Pending(y)[i] < y.snd.nextSeq
    ensures y.snd.nextSeq !in Nums(y.snd.scids.inner)
  {
    OnePlace(Nums(y.snd.scids.inner), Nums(y.rcv.dcids.inner), y.rcv.retired, y.back, Pending(y));
    forall i | 0 <= i < |Pending(y)| ensures Pending(y)[i] < y.snd.nextSeq {
      assert Pending(y)[i] in Pending(y);
    }
  }

  lemma AdvertiseKeeps(y: System)
    requires y.open && Inv(y) && y.queued != []
    ensures Step(y, Advertise).open && Inv(Step(y, Advertise))
  {
    assert y.queued == [y.queued[0]] + y.queued[1..];
    assert y == y.(queued := y.queued[1..]).(queued := [y.queued[0]] + y.queued[1..]);
    SendKeeps(y.(queued := y.queued[1..]), y.queued[0]);
  }

  /** The head frame is new to the receiver: in order, and with an ID no active entry has. */
  lemma HeadIsInOrder(y: System)
    requires y.open && Inv(y) && y.flight != []
    ensures InOrder(y.rcv, y.flight[0].cid, y.flight[0].num)
    ensures y.flight[0].num == Pending(y)[0] && y.flight[0].num !in Nums(y.rcv.dcids.inner)
  {
    var f := y.flight[0];
    assert Pending(y)[0] == f.num;
    OnePlace(Nums(y.snd.scids.inner), Nums(y.rcv.dcids.inner), y.rcv.retired, y.back, Pending(y));
    forall i | 0 <= i < |y.rcv.dcids.inner| ensures y.rcv.dcids.inner[i].cid != f.cid {
      var e := y.rcv.dcids.inner[i];
      assert (e.num, e.cid) in Pairs(y.rcv.dcids.inner);
      assert (f.num, f.cid) in Pairs(y.snd.scids.inner);
      PairsDetermine(y.snd.scids.inner, e.num, f.num, f.cid);
    }
  }

  /** With distinct IDs, two numbers cannot share one. */
  lemma PairsDetermine(es: seq<Entry>, a: nat, b: nat, cid: Cid)
    requires DistinctCids(es) && (b, cid) in Pairs(es)
    ensures (a, cid) in Pairs(es) ==> a == b
  {
  }

  /** The window of the head frame leaves a free active slot for it. */
  lemma HeadFits(active: set<nat>, flight: seq<NewCid>, below: set<nat>, capacity: nat)
    requires WindowsFit(active, flight, capacity) && flight != []
    requires below == set n | n in active && n < flight[0].floor
    requires flight[0].num !in active && flight[0].floor <= flight[0].num
    ensures |active - below| < capacity
  {
    var w := Window(active, flight, 0);
    assert flight[0].num in SentUpTo(flight, 0);
    assert active - below + {flight[0].num} <= w;
    SubsetSize(active - below + {flight[0].num}, w);
  }

  /** Delivering the head only shrinks the windows of the frames behind it. */
  lemma TailWindowsFit(active: set<nat>, active': set<nat>, flight: seq<NewCid>, capacity: nat)
    requires WindowsFit(active, flight, capacity) && flight != []
    requires active' <= active + {flight[0].num}
    ensures WindowsFit(active', flight[1..], capacity)
  {
    forall j | 0 <= j < |flight[1..]| ensures |Window(active', flight[1..], j)| <= capacity {
      assert flight[1..][j] == flight[j + 1];
      assert forall i :: 0 <= i <= j ==> flight[1..][i] == flight[i + 1];
      assert flight[0].num in SentUpTo(flight, j + 1);
      forall n | n in SentUpTo(flight[1..], j) ensures n in SentUpTo(flight, j + 1) {
        var i :| 0 <= i <= j && flight[1..][i].num == n;
        assert flight[i + 1].num == n;
      }
      SubsetSize(Window(active', flight[1..], j), Window(active, flight, j + 1));
    }
  }

  /** Where a number below the floor of a frame is: active, and then stored by the sender. */
  lemma BelowIsStored(active: set<nat>, retired: set<nat>, stored: set<nat>, es: seq<Entry>, floor: nat)
    requires active <= stored && retired <= stored && active !! retired && active == Nums(es)
    ensures |retired| + |Below(es, floor)| <= |retired| + |active| <= |stored|
  {
    SubsetSize(Below(es, floor), active);
    SubsetSize(retired + active, stored);
    assert |retired + active| == |retired| + |active|;
  }

  /**
   The retire set never fills: it and the active list hold different numbers the sender still stores, and
   the sender stores fewer than twice the receiver's limit, while the set has room for three times.
   */
  lemma RoomToRetire(y: System)
    requires y.open && Inv(y)
    ensures forall floor :: |y.rcv.retired| + |Below(y.rcv.dcids.inner, floor)| <= y.rcv.retiredCapacity
    ensures |y.rcv.retired| < y.rcv.retiredCapacity
    ensures forall num :: !Leaks(y.rcv, num)
  {
    hide Nums, Below, Increasing, DistinctCids, Agree, WindowsFit, Ordered, Usable;
    var stored, active := Nums(y.snd.scids.inner), Nums(y.rcv.dcids.inner);
    OnePlace(stored, active, y.rcv.retired, y.back, Pending(y));
    NumsSize(y.snd.scids.inner);
    forall floor ensures |y.rcv.retired| + |Below(y.rcv.dcids.inner, floor)| <= y.rcv.retiredCapacity {
      BelowIsStored(active, y.rcv.retired, stored, y.rcv.dcids.inner, floor);
    }
    BelowIsStored(active, y.rcv.retired, stored, y.rcv.dcids.inner, 0);
  }

  /**
   In every reachable state the receiver accepts the next frame exactly when the frame does not ask to
   retire itself. Neither the retire set, nor the active-list capacity (CONNECTION_ID_LIMIT_ERROR), nor
   the duplicate checks can ever be the reason for a refusal.
   */
  lemma DeliveryOutcome(y: System)
    requires y.open && Inv(y) && y.flight != []
    ensures var f := y.flight[0];
            NewDcid(y.rcv, f.cid, f.num, f.token, f.floor).1.Ok? <==> f.floor <= f.num
  {
    hide NewDcid;
    var f := y.flight[0];
    HeadIsInOrder(y);
    RoomToRetire(y);
    NewDcidExact(y.rcv, f.cid, f.num, f.token, f.floor);
    if f.floor <= f.num {
      HeadFits(Nums(y.rcv.dcids.inner), y.flight, Below(y.rcv.dcids.inner, f.floor), y.rcv.dcids.capacity);
    }
  }

  /** The receiver `d` that stored the head frame restores the invariant. */
  lemma StoredKeeps(y: System, d: Destination)
    requires y.open && Inv(y) && y.flight != [] && DestinationInv(d) && !d.closing
    requires var f := y.flight[0];
             && Nums(d.dcids.inner) == Nums(y.rcv.dcids.inner) - Below(y.rcv.dcids.inner, f.floor) + {f.num}
             && d.retired == y.rcv.retired + Below(y.rcv.dcids.inner, f.floor)
             && Pairs(d.dcids.inner) <= Pairs(y.rcv.dcids.inner) + {(f.num, f.cid)}
             && d.largestSeq == f.num && d.dcids.capacity == y.rcv.dcids.capacity
             && d.retiredCapacity == y.rcv.retiredCapacity
    ensures Inv(y.(rcv := d, flight := y.flight[1..]))
    ensures Nums(d.dcids.inner) <= Nums(y.snd.scids.inner)
  {
    hide SourceInv, DestinationInv, Pairs, Nums, WindowsFit;
    var z := y.(rcv := d, flight := y.flight[1..]);
    var f := y.flight[0];
    var stored, active, below := Nums(y.snd.scids.inner), Nums(y.rcv.dcids.inner), Below(y.rcv.dcids.inner, f.floor);
    HeadIsInOrder(y);
    OnePlace(stored, active, y.rcv.retired, y.back, Pending(y));
    PendingBelowNext(y);
    PendingTail(y.flight, y.queued);
    DeliverConserves(stored, active, below, y.rcv.retired, y.back, Pending(y));
    TailWindowsFit(active, Nums(d.dcids.inner), y.flight, y.rcv.dcids.capacity);
    assert f.num in Pending(y);
    AgreeTail(y.snd.scids.inner, y.rcv.dcids.inner, d.dcids.inner, y.flight);
  }

  lemma PendingTail(flight: seq<NewCid>, queued: seq<nat>)
    requires flight != []
    ensures FlightNums(flight[1..]) + queued == (FlightNums(flight) + queued)[1..]
  {
  }

  lemma AgreeTail(es: seq<Entry>, ds: seq<Entry>, ds': seq<Entry>, flight: seq<NewCid>)
    requires Agree(es, ds, flight) && flight != []
    requires Pairs(ds') <= Pairs(ds) + {(flight[0].num, flight[0].cid)}
    ensures Agree(es, ds', flight[1..])
  {
    assert (flight[0].num, flight[0].cid) in Pairs(es);
  }

  /**
   After a delivery the receiver's active IDs are stored by the sender, at or above the frame's
   floor, and no more than the receiver's limit.
   */
  lemma DeliverKeeps(y: System)
    requires y.open && Inv(y) && y.flight != []
    ensures Step(y, Deliver).open <==> y.flight[0].floor <= y.flight[0].num
    ensures Inv(Step(y, Deliver))
    ensures Step(y, Deliver).open ==>
              var f, active := y.flight[0], Nums(Step(y, Deliver).rcv.dcids.inner);
              f.num in active && active <= Nums(y.snd.scids.inner) && (forall n :: n in active ==> n >= f.floor)
  {
    var f := y.flight[0];
    DeliveryOutcome(y);
    HeadIsInOrder(y);
    NewDcidExact(y.rcv, f.cid, f.num, f.token, f.floor);
    var (d, r) := NewDcid(y.rcv, f.cid, f.num, f.token, f.floor);
    assert Step(y, Deliver) == y.(rcv := d, flight := y.flight[1..], open := r.Ok?);
    if r.Ok? {
      StoredKeeps(y, d);
    }
  }

  /** Fewer active numbers, smaller windows. */
  lemma FewerActiveFit(active: set<nat>, active': set<nat>, flight: seq<NewCid>, capacity: nat)
    requires WindowsFit(active, flight, capacity) && active' <= active
    ensures WindowsFit(active', flight, capacity)
  {
    forall j | 0 <= j < |flight| ensures |Window(active', flight, j)| <= capacity {
      SubsetSize(Window(active', flight, j), Window(active, flight, j));
    }
  }

  lemma GiveUpKeeps(y: System, num: nat)
    requires y.open && Inv(y)
    ensures Inv(Step(y, GiveUpDcid(num))) && Step(y, GiveUpDcid(num)).open
  {
    hide RetireDcid, DestinationInv, SourceInv, WindowsFit, Conserved, Nums, Pairs;
    var z := Step(y, GiveUpDcid(num));
    var active := Nums(y.rcv.dcids.inner);
    RetireDcidExact(y.rcv, num);
    OnePlace(Nums(y.snd.scids.inner), active, y.rcv.retired, y.back, Pending(y));
    RoomToRetire(y);
    if num in active && |y.rcv.dcids.inner| >= 2 {
      GiveUpConserves(Nums(y.snd.scids.inner), active, y.rcv.retired, y.back, Pending(y), num);
    }
    FewerActiveFit(active, Nums(z.rcv.dcids.inner), y.flight, y.rcv.dcids.capacity);
    assert Pending(z) == Pending(y);
  }

  lemma AnnounceKeeps(y: System, num: nat)
    requires y.open && Inv(y)
    ensures Inv(Step(y, Announce(num))) && Step(y, Announce(num)).open
  {
    if num in y.rcv.retired {
      AnnounceConserves(Nums(y.snd.scids.inner), Nums(y.rcv.dcids.inner), y.rcv.retired, y.back, Pending(y), num);
      SubsetSize(y.rcv.retired - {num}, y.rcv.retired);
      assert Pending(Step(y, Announce(num))) == Pending(y);
    }
  }

  /** The entry a retire request names is stored by the sender, and is not its last one. */
  lemma RetireIsKnown(y: System, i: nat) returns (k: nat)
    requires y.open && Inv(y) && i < |y.back|
    ensures k < |y.snd.scids.inner| && y.snd.scids.inner[k].num == y.back[i] && |y.snd.scids.inner| >= 2
    ensures y.back[i] in Nums(y.snd.scids.inner) && y.back[i] !in Nums(y.rcv.dcids.inner) && y.back[i] !in Pending(y)
  {
    var num := y.back[i];
    assert num in y.back;
    OnePlace(Nums(y.snd.scids.inner), Nums(y.rcv.dcids.inner), y.rcv.retired, y.back, Pending(y));
    k :| 0 <= k < |y.snd.scids.inner| && y.snd.scids.inner[k].num == num;
    var other := y.rcv.dcids.inner[0].num;
    assert other in Nums(y.rcv.dcids.inner);
    var m :| 0 <= m < |y.snd.scids.inner| && y.snd.scids.inner[m].num == other;
    assert m != k;
  }

  /** The remaining entries still agree once a number nobody uses any more has left. */
  lemma AgreeWithout(es: seq<Entry>, es': seq<Entry>, ds: seq<Entry>, flight: seq<NewCid>, num: nat, cid: Cid)
    requires Agree(es, ds, flight) && Pairs(es') == Pairs(es) - {(num, cid)}
    requires num !in Nums(ds) && num !in FlightNums(flight)
    ensures Agree(es', ds, flight)
  {
    forall p | p in Pairs(ds) ensures p in Pairs(es') {
      assert p.0 in Nums(ds);
    }
    forall i | 0 <= i < |flight| ensures (flight[i].num, flight[i].cid) in Pairs(es') {
      assert FlightNums(flight)[i] in FlightNums(flight);
    }
  }

  lemma AcceptOutcome(y: System, i: nat, pktDcid: Cid)
    requires y.open && Inv(y) && i < |y.back|
    ensures Step(y, AcceptRetire(i, pktDcid)).open <==>
              (y.back[i], pktDcid) !in Pairs(y.snd.scids.inner) &&
              Usable(y.snd.scids.inner, y.snd.retirePriorTo) - {y.back[i]} != {}
  {
    var es := y.snd.scids.inner;
    var k := RetireIsKnown(y, i);
    RetireAcceptedIff(y.snd, k, pktDcid);
    assert (y.back[i], es[k].cid) in Pairs(es);
    NumsDetermine(es, y.back[i], es[k].cid, pktDcid);
  }

  lemma RetireScidShape(s: Source, num: nat, pktDcid: Cid)
    ensures var t := RetireScid(s, num, pktDcid).0;
            t == s.(scids := s.scids.(inner := t.scids.inner), retirePriorTo := t.retirePriorTo)
  {
  }

  /**
   The sender never runs out of identifiers because of a retire request: it closes the connection
   only for a request that came on the very ID it retires, or when no other stored ID is usable.
   */
  lemma AcceptKeeps(y: System, i: nat, pktDcid: Cid)
    requires y.open && Inv(y) && i < |y.back|
    ensures Inv(Step(y, AcceptRetire(i, pktDcid)))
    ensures Step(y, AcceptRetire(i, pktDcid)).open <==>
              (y.back[i], pktDcid) !in Pairs(y.snd.scids.inner) &&
              Usable(y.snd.scids.inner, y.snd.retirePriorTo) - {y.back[i]} != {}
  {
    hide RetireScid, NewScid, NewDcid, RetireDcid;
    var num := y.back[i];
    RetireScidShape(y.snd, num, pktDcid);
    var es := y.snd.scids.inner;
    var k := RetireIsKnown(y, i);
    AcceptOutcome(y, i, pktDcid);
    RetireAcceptedIff(y.snd, k, pktDcid);
    RetireScidKeeps(y.snd, num, pktDcid);
    var z := Step(y, AcceptRetire(i, pktDcid));
    if z.open {
      assert Pending(z) == Pending(y);
      assert forall n :: n in FlightNums(y.flight) ==> n in Pending(y);
      AcceptConserves(Nums(es), Nums(y.rcv.dcids.inner), y.rcv.retired, y.back, Pending(y), i);
      AgreeWithout(es, z.snd.scids.inner, y.rcv.dcids.inner, y.flight, num, es[k].cid);
    }
  }

  /** In a sorted list a number stands for one ID. */
  lemma NumsDetermine(es: seq<Entry>, num: nat, a: Cid, b: Cid)
    requires Increasing(es) && (num, a) in Pairs(es)
    ensures (num, b) in Pairs(es) ==> a == b
  {
  }

  lemma RaiseLimitKeeps(y: System, v: nat)
    requires y.open && Inv(y)
    ensures Inv(Step(y, RaiseLimit(v))) && Step(y, RaiseLimit(v)).open
  {
    SetLimitKeeps(y.snd, v);
    assert Pending(Step(y, RaiseLimit(v))) == Pending(y);
  }

  lemma StepKeeps(y: System, ev: Event)
    requires Inv(y)
    ensures Inv(Step(y, ev))
  {
    if y.open {
      match ev {
        case Issue(_, _, _, _, _) => IssueKeeps(y, ev);
        case Advertise => if y.queued != [] { AdvertiseKeeps(y); }
        case RaiseLimit(v) => RaiseLimitKeeps(y, v);
        case Deliver => if y.flight != [] { DeliverKeeps(y); }
        case GiveUpDcid(num) => GiveUpKeeps(y, num);
        case Announce(num) => AnnounceKeeps(y, num);
        case AcceptRetire(i, pktDcid) => if i < |y.back| { AcceptKeeps(y, i, pktDcid); }
      }
    }
  }

  // -------------------------------------------------------------------------
  // Theorems over every run
  // -------------------------------------------------------------------------

  lemma InitialHolds(y: System)
    requires Initial(y)
    ensures y.open && Inv(y)
  {
    var es, ds := y.snd.scids.inner, y.rcv.dcids.inner;
    assert Nums(es) == {0} == Nums(ds) by {
      NumsSingle(es[0]);
      NumsSingle(ds[0]);
    }
    assert Pairs(es) == Pairs(ds) by {
      NumsSingle(es[0]);
      NumsSingle(ds[0]);
    }
  }

  /** Every reachable open state conserves the issued numbers and keeps both endpoints well formed. */
  lemma {:induction false} RunInvariant(y: System, events: seq<Event>)
    requires Inv(y)
    ensures Inv(Run(y, events))
    decreases |events|
  {
    if events != [] {
      StepKeeps(y, events[0]);
      RunInvariant(Step(y, events[0]), events[1..]);
    }
  }

  /** No interleaving makes `new_dcid` fail, except on a frame that asks to retire itself. */
  lemma NoSpuriousRefusal(y: System, events: seq<Event>)
    requires Initial(y)
    requires Run(y, events).open && Run(y, events).flight != []
    ensures var z := Run(y, events);
            var f := z.flight[0];
            NewDcid(z.rcv, f.cid, f.num, f.token, f.floor).1.Ok? <==> f.floor <= f.num
  {
    InitialHolds(y);
    RunInvariant(y, events);
    DeliveryOutcome(Run(y, events));
  }

  /** Every frame is built right after the `new_scid` that issued its number. */
  ghost predicate Prompt(events: seq<Event>) {
    forall i :: 0 <= i < |events| && events[i].Issue? ==> events[i].sendNow
  }

  ghost predicate FloorsReached(y: System) {
    y.queued == [] && forall i :: 0 <= i < |y.flight| ==> y.flight[i].floor <= y.flight[i].num
  }

  lemma PromptIssue(y: System, ev: Event)
    requires Inv(y) && FloorsReached(y) && y.open && ev.Issue? && ev.sendNow
    ensures FloorsReached(Step(y, ev))
  {
    hide NewScid, SourceInv;
    var (s, r) := NewScid(y.snd, ev.cid, ev.token, ev.path, ev.retireIfNeeded);
    NewScidKeeps(y.snd, ev.cid, ev.token, ev.path, ev.retireIfNeeded);
    IssueStores(y.snd, ev.cid, ev.token, ev.path, ev.retireIfNeeded);
    IssuedAboveFloor(y.snd, ev.cid, ev.token, ev.path, ev.retireIfNeeded);
    if r.Ok? && r.value.0 {
      NumsAppend(y.snd.scids.inner, Entry(ev.cid, r.value.1, ev.token, ev.path));
      FrameExists(s, r.value.1);
      assert Step(y, ev) == Send(y.(snd := s), r.value.1);
    }
  }

  /** A frame built at once carries a floor no higher than its own number. */
  lemma PromptStep(y: System, ev: Event)
    requires Inv(y) && FloorsReached(y) && (ev.Issue? ==> ev.sendNow)
    ensures FloorsReached(Step(y, ev))
  {
    hide NewScid, NewDcid, RetireDcid, RetireScid, Inv;
    if y.open && ev.Issue? {
      PromptIssue(y, ev);
    }
  }

  lemma IssuedAboveFloor(s: Source, cid: Cid, token: Option<nat>, path: Option<FourTuple>, retireIfNeeded: bool)
    requires SourceInv(s)
    ensures var (t, r) := NewScid(s, cid, token, path, retireIfNeeded);
            r.Ok? && r.value.0 ==> t.retirePriorTo <= r.value.1
  {
    RaisedKeeps(s);
  }

  /**
   With prompt frames no interleaving of issuing, retiring and failing calls ever makes `new_dcid` fail.
   */
  lemma {:induction false} PromptRunIsDelivered(y: System, events: seq<Event>)
    requires Inv(y) && FloorsReached(y) && Prompt(events)
    ensures var z := Run(y, events);
            && Inv(z) && FloorsReached(z)
            && (z.open && z.flight != [] ==>
                  NewDcid(z.rcv, z.flight[0].cid, z.flight[0].num, z.flight[0].token, z.flight[0].floor).1.Ok?)
    decreases |events|
  {
    if events == [] {
      if y.open && y.flight != [] {
        DeliveryOutcome(y);
      }
    } else {
      StepKeeps(y, events[0]);
      PromptStep(y, events[0]);
      PromptRunIsDelivered(Step(y, events[0]), events[1..]);
    }
  }

  /** Both ends after the handshake, with limits of two. */
  function PairOfTwo(c0: Cid): System {
    System(FreshSource(c0, None, None, 2), FreshDestination(c0, None, None, 2), [], [], [], true)
  }

  /** Number 1 waits in the queue while two renewals raise the floor to 2, the second without success. */
  lemma QueueOvertaken(c0: Cid, c1: Cid, c2: Cid, c3: Cid)
    requires c0 != c1 && c0 != c2 && c1 != c2 && c3 != c0 && c3 != c1 && c3 != c2
    ensures var y1 := Step(PairOfTwo(c0), Event.Issue(c1, Some(1), None, false, false));
            var y2 := Step(y1, Event.Issue(c2, Some(2), None, true, false));
            var y3 := Step(y2, Event.Issue(c3, Some(3), None, true, false));
            y3 == PairOfTwo(c0).(snd := ThreeIds(c0, c1, c2, 2), queued := [1, 2])
  {
    FirstIssue(c0, c1, false);
    var y1 := Step(PairOfTwo(c0), Event.Issue(c1, Some(1), None, false, false));
    assert y1 == PairOfTwo(c0).(snd := TwoIds(c0, c1), queued := [1]);
    RenewalAdds(c0, c1, c2);
    var y2 := Step(y1, Event.Issue(c2, Some(2), None, true, false));
    assert y2 == y1.(snd := ThreeIds(c0, c1, c2, 1), queued := [1, 2]);
    RenewalFails(c0, c1, c2, c3, 1);
  }

  /** Built late, a frame can be refused: the frame of the overtaken number 1 carries floor 2. */
  lemma LateFrameIsRefused(c0: Cid, c1: Cid, c2: Cid)
    requires c0 != c1
    ensures var y3 := PairOfTwo(c0).(snd := ThreeIds(c0, c1, c2, 2), queued := [1, 2]);
            var y4 := Step(y3, Advertise);
            y4.open && y4.flight == [NewCid(1, 2, c1, 1)] && !Step(y4, Deliver).open
  {
    var s := ThreeIds(c0, c1, c2, 2);
    assert s.scids.inner[1] == Entry(c1, 1, Some(1), None);
    assert FrameFor(s, 1) == Ok(NewCid(1, 2, c1, 1));
    assert IndexOfEither([Entry(c0, 0, None, None)], c1, 1) == 1;
    assert NewDcid(FreshDestination(c0, None, None, 2), c1, 1, 1, 2).1 == Err(InvalidFrame);
  }
}
