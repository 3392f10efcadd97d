/**
 What the protocol of `CidProtocol` gets done: an ID that is issued comes into use at the peer, one that is
 given up is forgotten by both sides, and a raised limit lets more of them be issued.
 */
module CidCycle {
  import opened Common
  import opened CidSpec
  import opened SourceRuns
  import opened DestinationRuns
  import opened CidProtocol
  import CidUsability

  /** In no place of the protocol: not stored, not in use, not waiting and not on the way in either direction. */
  ghost predicate Forgotten(y: System, num: nat) {
    && num !in Nums(y.snd.scids.inner) && num !in Nums(y.rcv.dcids.inner) && num !in y.rcv.retired
    && num !in y.back && num !in Pending(y)
  }

  /** An active ID that is not the last leaves for the retire set when it is given up. */
  lemma GiveUpMoves(y: System, num: nat)
    requires y.open && Inv(y) && num in Nums(y.rcv.dcids.inner) && |y.rcv.dcids.inner| >= 2
    ensures var a := Step(y, GiveUpDcid(num));
            && a.open && Inv(a) && num in a.rcv.retired && a == y.(rcv := a.rcv)
            && Nums(a.rcv.dcids.inner) == Nums(y.rcv.dcids.inner) - {num}
  {
    hide Inv, RetireDcid, Nums, Leaks;
    GiveUpKeeps(y, num);
    InvReceiver(y);
    RetireDcidExact(y.rcv, num);
    RoomToRetire(y);
  }

  lemma InvReceiver(y: System)
    requires y.open && Inv(y)
    ensures DestinationInv(y.rcv) && SourceInv(y.snd)
    ensures Conserved(Nums(y.snd.scids.inner), Nums(y.rcv.dcids.inner), y.rcv.retired, y.back, Pending(y))
  {
  }

  /** A number in the retire set is asked for in one request. */
  lemma AnnounceMoves(y: System, num: nat)
    requires y.open && Inv(y) && num in y.rcv.retired
    ensures var b := Step(y, Announce(num));
            && b.open && Inv(b) && b.back == y.back + [num] && num !in b.rcv.retired
            && b.snd == y.snd && b.rcv.dcids == y.rcv.dcids
  {
    hide Inv;
    AnnounceKeeps(y, num);
  }

  /** An accepted request makes both sides forget the number, and no other. */
  lemma AcceptForgets(y: System, i: nat, pktDcid: Cid)
    requires y.open && Inv(y) && i < |y.back| && Step(y, AcceptRetire(i, pktDcid)).open
    ensures var c := Step(y, AcceptRetire(i, pktDcid));
            Inv(c) && Forgotten(c, y.back[i]) && Nums(c.snd.scids.inner) == Nums(y.snd.scids.inner) - {y.back[i]} && c.rcv == y.rcv
  {
    hide Inv, RetireScid, Conserved, Nums;
    AcceptKeeps(y, i, pktDcid);
    InvReceiver(y);
    var c, num := Step(y, AcceptRetire(i, pktDcid)), y.back[i];
    var k := RetireIsKnown(y, i);
    RetireAcceptedIff(y.snd, k, pktDcid);
    InvReceiver(c);
    OnePlace(Nums(c.snd.scids.inner), Nums(c.rcv.dcids.inner), c.rcv.retired, c.back, Pending(c));
  }

  /**
   The life of an ID ends: in every reachable state, giving up an active ID that is not the last, sending the
   request and accepting it makes both sides forget its number and no other. The request is only refused
   when it came on the ID itself or no other ID is usable.
   */
  lemma RetirementCompletes(y: System, num: nat, pktDcid: Cid)
    requires y.open && Inv(y) && num in Nums(y.rcv.dcids.inner) && |y.rcv.dcids.inner| >= 2
    ensures var b := Step(Step(y, GiveUpDcid(num)), Announce(num));
            var c := Step(b, AcceptRetire(|y.back|, pktDcid));
            && b.open
            && (c.open <==> (num, pktDcid) !in Pairs(y.snd.scids.inner)
                            && Usable(y.snd.scids.inner, y.snd.retirePriorTo) - {num} != {})
            && (c.open ==> Inv(c) && Forgotten(c, num) && Nums(c.snd.scids.inner) == Nums(y.snd.scids.inner) - {num}
                           && Nums(c.rcv.dcids.inner) == Nums(y.rcv.dcids.inner) - {num})
  {
    hide Inv, Step, Nums, Pairs, Forgotten;
    var a := Step(y, GiveUpDcid(num));
    var b := Step(a, Announce(num));
    GiveUpMoves(y, num);
    AnnounceMoves(a, num);
    AcceptKeeps(b, |y.back|, pktDcid);
    if Step(b, AcceptRetire(|y.back|, pktDcid)).open {
      AcceptForgets(b, |y.back|, pktDcid);
    }
  }

  /** The frame of a new ID goes out with its number and ID. */
  lemma IssueSends(y: System, cid: Cid, token: Option<nat>, path: Option<FourTuple>, retireIfNeeded: bool)
    requires y.open && Inv(y) && y.queued == [] && y.flight == []
    requires CidUsability.Adds(y.snd, cid, token, retireIfNeeded)
    ensures var a := Step(y, Event.Issue(cid, token, path, retireIfNeeded, true));
            && a.open && Inv(a) && FloorsReached(a) && |a.flight| == 1 && a.rcv == y.rcv
            && a.flight[0].num == y.snd.nextSeq && a.flight[0].cid == cid && (y.snd.nextSeq, cid) in Pairs(a.snd.scids.inner)
  {
    hide Inv, NewScid, SourceInv, Nums, Pairs, FloorsReached, CidUsability.Adds, Send, FrameFor;
    var ev := Event.Issue(cid, token, path, retireIfNeeded, true);
    NoFloorsYet(y);
    InvReceiver(y);
    CidUsability.AddsIff(y.snd, cid, token, path, retireIfNeeded);
    IssueStores(y.snd, cid, token, path, retireIfNeeded);
    IssueKeeps(y, ev);
    PromptIssue(y, ev);
    var (s, r) := NewScid(y.snd, cid, token, path, retireIfNeeded);
    NewScidKeeps(y.snd, cid, token, path, retireIfNeeded);
    LastNum(s, y.snd.nextSeq, cid);
    SendsOne(y.(snd := s), y.snd.nextSeq);
  }

  lemma NoFloorsYet(y: System)
    requires y.queued == [] && y.flight == []
    ensures FloorsReached(y)
  {
  }

  lemma LastNum(s: Source, num: nat, cid: Cid)
    requires SourceInv(s) && |s.scids.inner| >= 1
    requires s.scids.inner[|s.scids.inner| - 1].num == num && s.scids.inner[|s.scids.inner| - 1].cid == cid && num >= 1
    ensures FrameFor(s, num).Ok? && FrameFor(s, num).value.cid == cid && FrameFor(s, num).value.num == num
    ensures (num, cid) in Pairs(s.scids.inner)
  {
    var n := |s.scids.inner| - 1;
    assert IndexOf(s.scids.inner, num) == n;
  }

  lemma SendsOne(y: System, num: nat)
    requires FrameFor(y.snd, num).Ok?
    ensures Send(y, num) == y.(flight := y.flight + [FrameFor(y.snd, num).value])
  {
  }

  /**
   The life of an ID begins: with nothing on the way, an ID that is added and sent at once is active at the
   receiver after one delivery, under its number.
   */
  lemma IssueArrives(y: System, cid: Cid, token: Option<nat>, path: Option<FourTuple>, retireIfNeeded: bool)
    requires y.open && Inv(y) && y.queued == [] && y.flight == []
    requires CidUsability.Adds(y.snd, cid, token, retireIfNeeded)
    ensures var b := Step(Step(y, Event.Issue(cid, token, path, retireIfNeeded, true)), Deliver);
            b.open && Inv(b) && (y.snd.nextSeq, cid) in Pairs(b.rcv.dcids.inner)
            && (y.snd.nextSeq, cid) in Pairs(b.snd.scids.inner) && b.flight == []
  {
    hide Inv, Step, Nums, Pairs, NewDcid;
    var a := Step(y, Event.Issue(cid, token, path, retireIfNeeded, true));
    IssueSends(y, cid, token, path, retireIfNeeded);
    DeliverKeeps(a);
    DeliverLeaves(a);
    ActiveUnder(Step(a, Deliver), y.snd.nextSeq, cid);
  }

  lemma DeliverLeaves(y: System)
    requires y.open && y.flight != []
    ensures Step(y, Deliver).snd == y.snd && Step(y, Deliver).flight == y.flight[1..]
  {
    hide NewDcid;
  }

  /** An active number is active under the ID the sender stores. */
  lemma ActiveUnder(y: System, num: nat, cid: Cid)
    requires y.open && Inv(y) && num in Nums(y.rcv.dcids.inner) && (num, cid) in Pairs(y.snd.scids.inner)
    ensures (num, cid) in Pairs(y.rcv.dcids.inner)
  {
    var i :| 0 <= i < |y.rcv.dcids.inner| && y.rcv.dcids.inner[i].num == num;
    assert (num, y.rcv.dcids.inner[i].cid) in Pairs(y.rcv.dcids.inner);
    NumsDetermine(y.snd.scids.inner, num, y.rcv.dcids.inner[i].cid, cid);
  }

  /** A sender that was refused for its limit issues the next ID once the limit is raised above what it stores. */
  lemma RaisedLimitAdmits(y: System, v: nat, cid: Cid, token: nat, path: Option<FourTuple>)
    requires y.open && Inv(y) && y.snd.limit <= |y.snd.scids.inner| < v <= y.rcv.dcids.capacity && v <= USIZE_MAX / 2
    requires IndexOfCid(y.snd.scids.inner, cid) == |y.snd.scids.inner|
    ensures NewScid(y.snd, cid, Some(token), path, false).1 == Err(IdLimit)
    ensures var z := Step(y, RaiseLimit(v));
            z.open && Inv(z) && NewScid(z.snd, cid, Some(token), path, false).1 == Ok((true, y.snd.nextSeq))
  {
    hide LowestUsable, IndexOf, IndexOfCid;
    RaiseLimitKeeps(y, v);
    assert IndexOf(y.snd.scids.inner, y.snd.nextSeq) == |y.snd.scids.inner|;
  }
}
