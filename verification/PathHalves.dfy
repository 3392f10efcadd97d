/**
 What a run of calls on the connection keeps of each path space: the invariants of its source and its
 destination half (quiche/src/cid.rs).
 */
module PathHalves {
  import opened Common
  import opened CidSpec
  import opened PathSpaces
  import SourceRuns
  import DestinationRuns

  /** What a call makes of a space that survives it. */
  function Touched(c: Conn, s: Space, call: Call): Space {
    match call
    case IssueScid(id, cid, token, _, path, retireIfNeeded) =>
      if id != s.id || c.zeroLengthScid || (token.None? && id != 0) then s
      else s.(src := CidSpec.NewScid(s.src, cid, token, path, retireIfNeeded).0)
    case ReceiveDcid(id, cid, num, token, floor) =>
      if id != s.id || c.zeroLengthDcid then s else s.(dst := CidSpec.NewDcid(s.dst, cid, num, token, floor).0)
    case RetireOurs(id, num, pktDcid) =>
      if id != s.id then s else s.(src := CidSpec.RetireScid(s.src, num, pktDcid).0)
    case RetireTheirs(id, num) =>
      if id != s.id || c.zeroLengthDcid then s else s.(dst := CidSpec.RetireDcid(s.dst, num).0)
    case MarkTheirs(id, num, retire) => if id != s.id then s else s.(dst := Marked(s.dst, num, retire).0)
    case BeginClosing(id) => if id != s.id then s else Closing(s)
    case Learn(cid, token, path) => if s.id != 0 then s else s.(dst := SetInitialDcid(s.dst, cid, 0, token, path))
    case Limit(v) => s.(src := SetSourceLimit(s.src, v))
    case _ => s
  }

  /** Every space of `t` whose path ID had a space before is that space, touched. */
  ghost predicate Touches(c: Conn, call: Call, t: Conn) {
    forall i, k :: 0 <= i < |t.spaces| && 0 <= k < |c.spaces| && t.spaces[i].id == c.spaces[k].id ==>
      t.spaces[i] == Touched(c, c.spaces[k], call)
  }

  /** One space replaced, all others as they were. */
  lemma OneTouched(c: Conn, call: Call, i: nat, s: Space, t: Conn)
    requires SpacesInv(c) && i < |c.spaces| && s.id == c.spaces[i].id && t.spaces == c.spaces[i := s]
    requires s == Touched(c, c.spaces[i], call)
    requires forall k :: 0 <= k < |c.spaces| && k != i ==> Touched(c, c.spaces[k], call) == c.spaces[k]
    ensures Touches(c, call, t)
  {
    hide Touched;
  }

  /** New spaces at the end, or none. */
  lemma NoneTouched(c: Conn, call: Call, t: Conn)
    requires SpacesInv(c) && (t.spaces == c.spaces ||
                              (|t.spaces| == |c.spaces| + 1 && t.spaces[..|c.spaces|] == c.spaces
                               && forall k :: 0 <= k < |c.spaces| ==> c.spaces[k].id != t.spaces[|c.spaces|].id))
    requires forall k :: 0 <= k < |c.spaces| ==> Touched(c, c.spaces[k], call) == c.spaces[k]
    ensures Touches(c, call, t)
  {
    hide Touched;
    forall i, k | 0 <= i < |t.spaces| && 0 <= k < |c.spaces| && t.spaces[i].id == c.spaces[k].id
      ensures t.spaces[i] == Touched(c, c.spaces[k], call)
    {
      if i < |c.spaces| {
        assert t.spaces[i] == c.spaces[i];
        assert i == k;
      }
    }
  }

  lemma IssueTouches(c: Conn, call: Call)
    requires SpacesInv(c) && call.IssueScid?
    ensures Touches(c, call, Apply(c, call))
  {
    hide CidSpec.NewScid, InitialSource, InitialDestination, MarkAdvertise, SpacesInv, Touches, SpaceOf;
    var i, t := SpaceOf(c.spaces, call.id), Apply(c, call);
    if !c.zeroLengthScid && !(call.token.None? && call.id != 0) && i < |c.spaces| {
      assert forall k :: 0 <= k < |c.spaces| && k != i ==> c.spaces[k].id != call.id by { IdsDiffer(c, i); }
      OneTouched(c, call, i, Touched(c, c.spaces[i], call), t);
    } else {
      NoneTouched(c, call, t);
    }
  }

  lemma IdsDiffer(c: Conn, i: nat)
    requires SpacesInv(c) && i < |c.spaces|
    ensures forall k :: 0 <= k < |c.spaces| && k != i ==> c.spaces[k].id != c.spaces[i].id
  {
  }

  lemma ReceiveTouches(c: Conn, call: Call)
    requires SpacesInv(c) && call.ReceiveDcid?
    ensures Touches(c, call, Apply(c, call))
  {
    hide CidSpec.NewDcid, InitialSource, InitialDestination, SpacesInv, Touches, SpaceOf;
    var i, t := SpaceOf(c.spaces, call.id), Apply(c, call);
    if !c.zeroLengthDcid && i < |c.spaces| {
      IdsDiffer(c, i);
      OneTouched(c, call, i, Touched(c, c.spaces[i], call), t);
    } else {
      NoneTouched(c, call, t);
    }
  }

  lemma CloseTouches(c: Conn, call: Call)
    requires SpacesInv(c) && call.ClosePath?
    ensures Touches(c, call, Apply(c, call))
  {
    hide SpacesInv;
    var t := Apply(c, call);
    Remaining(c, call.id);
    forall i, k | 0 <= i < |t.spaces| && 0 <= k < |c.spaces| && t.spaces[i].id == c.spaces[k].id
      ensures t.spaces[i] == Touched(c, c.spaces[k], call)
    {
      var j :| 0 <= j < |c.spaces| && c.spaces[j] == t.spaces[i];
      IdsDiffer(c, j);
    }
  }

  lemma Remaining(c: Conn, id: nat)
    ensures forall i :: 0 <= i < |RemovePathId(c, id).0.spaces| ==> RemovePathId(c, id).0.spaces[i] in c.spaces
  {
    hide RetireAll, Farewells, SpaceOf;
  }

  /** The calls on one existing space. */
  lemma RetireTouches(c: Conn, call: Call)
    requires SpacesInv(c) && (call.RetireOurs? || call.RetireTheirs? || call.MarkTheirs? || call.BeginClosing?)
    ensures Touches(c, call, Apply(c, call))
  {
    hide CidSpec.RetireScid, CidSpec.RetireDcid, Marked, Touches, SpaceOf;
    var i, t := SpaceOf(c.spaces, call.id), Apply(c, call);
    if i == |c.spaces| || (call.RetireTheirs? && c.zeroLengthDcid) {
      NoneTouched(c, call, t);
    } else {
      IdsDiffer(c, i);
      OneTouched(c, call, i, Touched(c, c.spaces[i], call), t);
    }
  }

  lemma LearnTouches(c: Conn, call: Call)
    requires SpacesInv(c) && call.Learn?
    ensures Touches(c, call, Apply(c, call))
  {
    hide SetInitialDcid, Touches, SpaceOf;
    var i, t := SpaceOf(c.spaces, 0), Apply(c, call);
    if i == |c.spaces| {
      NoneTouched(c, call, t);
    } else {
      IdsDiffer(c, i);
      OneTouched(c, call, i, Touched(c, c.spaces[i], call), t);
    }
  }

  lemma LimitTouches(c: Conn, call: Call)
    requires SpacesInv(c) && call.Limit?
    ensures Touches(c, call, Apply(c, call))
  {
    var t := Apply(c, call);
    forall i, k | 0 <= i < |t.spaces| && 0 <= k < |c.spaces| && t.spaces[i].id == c.spaces[k].id
      ensures t.spaces[i] == Touched(c, c.spaces[k], call)
    {
      assert t.spaces[i].id == c.spaces[i].id;
      assert i == k;
    }
  }

  lemma ApplyTouches(c: Conn, call: Call)
    requires SpacesInv(c)
    ensures Touches(c, call, Apply(c, call))
  {
    hide Touches, SpacesInv, PathSpaces.NewScid, PathSpaces.NewDcid, RemovePathId, PathSpaces.RetireScid,
         PathSpaces.RetireDcid, MarkRetireDcidSeq, ClosingPathId, LearnDcid, LimitSource;
    match call {
      case IssueScid(_, _, _, _, _, _) => IssueTouches(c, call);
      case ReceiveDcid(_, _, _, _, _) => ReceiveTouches(c, call);
      case ClosePath(_) => CloseTouches(c, call);
      case Learn(_, _, _) => LearnTouches(c, call);
      case Limit(_) => LimitTouches(c, call);
      case AllowLocal(_, _) => NoneTouched(c, call, Apply(c, call));
      case AllowRemote(_) => NoneTouched(c, call, Apply(c, call));
      case TakeSpare => NoneTouched(c, call, Apply(c, call));
      case MarkOurs(_, _, _) => NoneTouched(c, call, Apply(c, call));
      case _ => RetireTouches(c, call);
    }
  }

  /** The calls that can open a space keep all others, and put the ID of a new one on the heap. */
  ghost predicate Grows(c: Conn, t: Conn) {
    && |c.spaces| <= |t.spaces| <= |c.spaces| + 1
    && (forall i :: 0 <= i < |c.spaces| ==> t.spaces[i].id == c.spaces[i].id)
    && t.spare == c.spare + if |t.spaces| > |c.spaces| then multiset{t.spaces[|c.spaces|].id} else multiset{}
  }

  lemma IssueOnGrows(c: Conn, i: nat, cid: Cid, token: Option<nat>, advertise: bool, path: Option<FourTuple>, retireIfNeeded: bool)
    requires i < |c.spaces|
    ensures Grows(c, IssueOn(c, i, cid, token, advertise, path, retireIfNeeded).0)
  {
    hide CidSpec.NewScid, MarkAdvertise;
  }

  lemma OpenGrows(c: Conn, id: nat, cid: Cid, token: Option<nat>, advertise: bool, path: Option<FourTuple>)
    ensures Grows(c, OpenWithScid(c, id, cid, token, advertise, path).0)
  {
    hide MarkAdvertise, InitialSource, InitialDestination;
  }

  lemma IssueGrows(c: Conn, call: Call)
    requires call.IssueScid?
    ensures Grows(c, Apply(c, call))
  {
    hide IssueOn, OpenWithScid, SpaceOf;
    if !c.zeroLengthScid && !(call.token.None? && call.id != 0) {
      var i := SpaceOf(c.spaces, call.id);
      if i < |c.spaces| {
        IssueOnGrows(c, i, call.cid, call.token, call.advertise, call.path, call.retireIfNeeded);
      } else {
        OpenGrows(c, call.id, call.cid, call.token, call.advertise, call.path);
      }
    }
  }

  lemma ReceiveGrows(c: Conn, call: Call)
    requires call.ReceiveDcid?
    ensures Grows(c, Apply(c, call))
  {
    hide CidSpec.NewDcid, InitialSource, InitialDestination, SpaceOf;
  }

  lemma IdAtMeansOpen(ss: seq<Space>, k: nat)
    requires k < |ss|
    ensures SpaceOf(ss, ss[k].id) < |ss|
  {
  }

  /** Which spaces there are after a path was closed, recorded or not. */
  lemma OpenAfterClose(c: Conn, id: nat, n: nat)
    requires SpacesInv(c) && SpaceOf(c.spaces, n) < |c.spaces|
    ensures var t := RemovePathId(c, id).0;
            SpaceOf(t.spaces, n) < |t.spaces| <==> n != id || |c.spaces| == 1
  {
    hide RetireAll, Farewells, SpaceOf;
    var i, k, t := SpaceOf(c.spaces, id), SpaceOf(c.spaces, n), RemovePathId(c, id).0;
    if n != id && |t.spaces| < |c.spaces| {
      assert t.spaces[if k < i then k else k - 1] == c.spaces[k];
    }
  }

  /** Only closing a path takes its space away. */
  lemma StaysOpen(c: Conn, call: Call, id: nat)
    requires SpacesInv(c) && SpaceOf(c.spaces, id) < |c.spaces| && call != ClosePath(id)
    ensures SpaceOf(Apply(c, call).spaces, id) < |Apply(c, call).spaces|
  {
    hide PathSpaces.NewScid, PathSpaces.NewDcid, RemovePathId, PathSpaces.RetireScid, PathSpaces.RetireDcid,
         MarkRetireDcidSeq, ClosingPathId, LearnDcid, LimitSource, SpaceOf, SpacesInv;
    var k, t := SpaceOf(c.spaces, id), Apply(c, call);
    if call.ClosePath? {
      OpenAfterClose(c, call.id, id);
    } else {
      if call.IssueScid? {
        IssueGrows(c, call);
      } else if call.ReceiveDcid? {
        ReceiveGrows(c, call);
      } else if !ChangesIds(call) {
        IdsStay(c, call);
      }
      IdAtMeansOpen(t.spaces, k);
    }
  }

  // -------------------------------------------------------------------------
  // The halves' invariants
  // -------------------------------------------------------------------------

  lemma TouchedSource(c: Conn, s: Space, call: Call)
    requires SourceRuns.SourceInv(s.src)
    ensures SourceRuns.SourceInv(Touched(c, s, call).src)
    ensures s.src.retirePriorTo <= Touched(c, s, call).src.retirePriorTo && s.src.nextSeq <= Touched(c, s, call).src.nextSeq
  {
    hide CidSpec.NewScid, CidSpec.NewDcid, CidSpec.RetireScid, CidSpec.RetireDcid, Marked, SetInitialDcid, SetSourceLimit;
    match call {
      case IssueScid(_, cid, token, _, path, retireIfNeeded) => SourceRuns.NewScidKeeps(s.src, cid, token, path, retireIfNeeded);
      case RetireOurs(_, num, pktDcid) => SourceRuns.RetireScidKeeps(s.src, num, pktDcid);
      case Limit(v) => SourceRuns.ApplyKeeps(s.src, SourceRuns.SetLimit(v));
      case _ =>
    }
  }

  /** Frames for the space bring growing numbers and fresh IDs, and only retired numbers are marked again. */
  ghost predicate InOrderOn(s: Space, call: Call) {
    && (call.ReceiveDcid? && call.id == s.id ==> DestinationRuns.InOrder(s.dst, call.cid, call.num))
    && (call.MarkTheirs? && call.id == s.id && call.retire ==> call.num !in Nums(s.dst.dcids.inner) && call.num <= s.dst.largestSeq)
    && (call.Learn? ==> s.id != 0)
  }

  lemma MarkedKeeps(d: Destination, num: nat, retire: bool)
    requires DestinationRuns.DestinationInv(d) && (retire ==> num !in Nums(d.dcids.inner) && num <= d.largestSeq)
    ensures DestinationRuns.DestinationInv(Marked(d, num, retire).0)
    ensures Marked(d, num, retire).0.peerRetirePriorTo == d.peerRetirePriorTo
  {
    hide Nums, Increasing, DistinctCids;
    if !retire {
      DestinationRuns.AnnouncedKeeps(d, num);
    }
  }

  lemma TouchedDestination(c: Conn, s: Space, call: Call)
    requires DestinationRuns.DestinationInv(s.dst) && InOrderOn(s, call)
    ensures DestinationRuns.DestinationInv(Touched(c, s, call).dst)
    ensures s.dst.peerRetirePriorTo <= Touched(c, s, call).dst.peerRetirePriorTo
  {
    hide CidSpec.NewScid, CidSpec.NewDcid, CidSpec.RetireScid, CidSpec.RetireDcid, SetInitialDcid, SetSourceLimit,
         DestinationRuns.DestinationInv, DestinationRuns.InOrder, Nums, Pairs, Marked;
    match call {
      case ReceiveDcid(id, cid, num, token, floor) =>
        if id == s.id {
          DestinationRuns.NewDcidExact(s.dst, cid, num, token, floor);
        }
      case RetireTheirs(_, num) => DestinationRuns.RetireDcidExact(s.dst, num);
      case MarkTheirs(id, num, retire) =>
        if id == s.id {
          MarkedKeeps(s.dst, num, retire);
        }
      case BeginClosing(_) => DestinationRuns.AnnouncedKeeps(s.dst, 0);
      case _ =>
    }
  }

  // -------------------------------------------------------------------------
  // Whole runs
  // -------------------------------------------------------------------------

  function SpaceAt(c: Conn, id: nat): Space
    requires SpaceOf(c.spaces, id) < |c.spaces|
  {
    c.spaces[SpaceOf(c.spaces, id)]
  }

  lemma SpaceTouched(c: Conn, call: Call, id: nat)
    requires SpacesInv(c) && SpaceOf(c.spaces, id) < |c.spaces| && call != ClosePath(id)
    ensures var t := Apply(c, call);
            SpaceOf(t.spaces, id) < |t.spaces| && SpaceAt(t, id) == Touched(c, SpaceAt(c, id), call)
  {
    hide Touched, Apply, SpacesInv;
    StaysOpen(c, call, id);
    ApplyTouches(c, call);
  }

  /**
   Over every run that does not close the path: its space stays, its source half keeps the source invariant,
   and its floor and next number never fall.
   */
  lemma {:induction false} RunKeepsSource(c: Conn, calls: seq<Call>, id: nat)
    requires SpacesInv(c) && SpaceOf(c.spaces, id) < |c.spaces| && SourceRuns.SourceInv(SpaceAt(c, id).src)
    requires ClosePath(id) !in calls
    ensures var t := Run(c, calls);
            && SpaceOf(t.spaces, id) < |t.spaces| && SourceRuns.SourceInv(SpaceAt(t, id).src)
            && SpaceAt(c, id).src.retirePriorTo <= SpaceAt(t, id).src.retirePriorTo
            && SpaceAt(c, id).src.nextSeq <= SpaceAt(t, id).src.nextSeq
    decreases |calls|
  {
    hide Touched, Apply, SpacesInv, SourceRuns.SourceInv, SpaceAt;
    if calls != [] {
      SpaceTouched(c, calls[0], id);
      TouchedSource(c, SpaceAt(c, id), calls[0]);
      ApplyKeeps(c, calls[0]);
      RunKeepsSource(Apply(c, calls[0]), calls[1..], id);
    }
  }

  /** The calls of a run that concern the destination half of `id` come in order. */
  ghost predicate InOrderRun(c: Conn, calls: seq<Call>, id: nat)
    decreases |calls|
  {
    calls == [] ||
    ((SpaceOf(c.spaces, id) < |c.spaces| ==> InOrderOn(SpaceAt(c, id), calls[0])) && InOrderRun(Apply(c, calls[0]), calls[1..], id))
  }

  /**
   Over every such run whose frames for the path come in order, its destination half keeps the destination
   invariant, and the largest floor received never falls.
   */
  lemma {:induction false} RunKeepsDestination(c: Conn, calls: seq<Call>, id: nat)
    requires SpacesInv(c) && SpaceOf(c.spaces, id) < |c.spaces| && DestinationRuns.DestinationInv(SpaceAt(c, id).dst)
    requires ClosePath(id) !in calls && InOrderRun(c, calls, id)
    ensures var t := Run(c, calls);
            && SpaceOf(t.spaces, id) < |t.spaces| && DestinationRuns.DestinationInv(SpaceAt(t, id).dst)
            && SpaceAt(c, id).dst.peerRetirePriorTo <= SpaceAt(t, id).dst.peerRetirePriorTo
    decreases |calls|
  {
    hide Touched, Apply, SpacesInv, DestinationRuns.DestinationInv, SpaceAt, InOrderOn;
    if calls != [] {
      SpaceTouched(c, calls[0], id);
      TouchedDestination(c, SpaceAt(c, id), calls[0]);
      ApplyKeeps(c, calls[0]);
      RunKeepsDestination(Apply(c, calls[0]), calls[1..], id);
    }
  }
}
