/**
 What the calls on the connection's identifiers answer and tell: the queue of IDs to advertise, the
 notifications, the refusals in the order they are checked (quiche/src/cid.rs).
 */
module PathLaws {
  import opened Common
  import opened CidSpec
  import opened PathSpaces
  import PathHalves
  import SourceRuns
  import CidProtocol

  type Queue = seq<(nat, nat)>

  // -------------------------------------------------------------------------
  // The advertisement queue
  // -------------------------------------------------------------------------

  ghost predicate DistinctPairs(q: Queue) {
    forall i, j :: 0 <= i < j < |q| ==> q[i] != q[j]
  }

  /** A marked pair is in the queue, behind all others unless it was there. */
  lemma MarkedOn(q: Queue, x: (nat, nat))
    ensures var r := MarkAdvertise(q, x, true);
            x in r && q <= r && r == (if x in q then q else q + [x]) && (DistinctPairs(q) ==> DistinctPairs(r))
  {
  }

  /** Where a pair stands, or the length of the queue. */
  function PlaceOf(q: Queue, x: (nat, nat)): (i: nat)
    ensures i <= |q| && (i < |q| ==> q[i] == x) && x !in q[..i]
  {
    if q == [] || q[0] == x then 0
    else
      var i := PlaceOf(q[1..], x);
      assert q[..i + 1] == [q[0]] + q[1..][..i];
      i + 1
  }

  lemma {:induction false} WithoutOne(q: Queue, x: (nat, nat))
    ensures var i := PlaceOf(q, x);
            Without(q, x) == if i == |q| then q else q[..i] + q[i + 1..]
  {
    if q != [] && q[0] != x {
      WithoutOne(q[1..], x);
      var i := PlaceOf(q[1..], x);
      assert PlaceOf(q, x) == i + 1;
      if i < |q[1..]| {
        assert q[..i + 1] == [q[0]] + q[1..][..i] && q[i + 2..] == q[1..][i + 1..];
      }
    }
  }

  /** Taking one pair out of a queue without repetitions leaves all others, in their order. */
  lemma TakenOut(q: Queue, i: nat)
    requires DistinctPairs(q) && i < |q|
    ensures var r := q[..i] + q[i + 1..];
            DistinctPairs(r) && q[i] !in r && forall y :: y != q[i] ==> (y in r <==> y in q)
  {
    var r := q[..i] + q[i + 1..];
    assert q == q[..i] + [q[i]] + q[i + 1..];
    assert forall k :: 0 <= k < |r| ==> r[k] == q[if k < i then k else k + 1];
  }

  /** A pair marked off is gone from a queue without repetitions; all others keep their order. */
  lemma MarkedOff(q: Queue, x: (nat, nat))
    requires DistinctPairs(q)
    ensures var r := MarkAdvertise(q, x, false);
            && x !in r && DistinctPairs(r) && (forall y :: y != x ==> (y in r <==> y in q))
            && r == (if x in q then q[..PlaceOf(q, x)] + q[PlaceOf(q, x) + 1..] else q)
  {
    hide Without, PlaceOf, DistinctPairs;
    WithoutOne(q, x);
    var i := PlaceOf(q, x);
    if i < |q| {
      TakenOut(q, i);
    } else {
      assert q[..|q|] == q;
    }
  }

  /** Whether a `new_scid` call issues a new ID. */
  predicate Adding(c: Conn, id: nat, cid: Cid, token: Option<nat>, path: Option<FourTuple>, retireIfNeeded: bool) {
    var i := SpaceOf(c.spaces, id);
    i == |c.spaces| ||
    (var r := CidSpec.NewScid(c.spaces[i].src, cid, token, path, retireIfNeeded).1; r.Ok? && r.value.0)
  }

  /**
   An ID newly issued is queued for a NEW_CONNECTION_ID frame, behind those queued before, exactly when that
   was asked for; an ID already known and a refused call leave the queue alone.
   */
  lemma NewScidQueues(c: Conn, id: nat, cid: Cid, token: Option<nat>, advertise: bool, path: Option<FourTuple>, retireIfNeeded: bool)
    ensures var (t, r) := PathSpaces.NewScid(c, id, cid, token, advertise, path, retireIfNeeded);
            && (r.Err? || !Adding(c, id, cid, token, path, retireIfNeeded) ==> t.advertise == c.advertise)
            && (r.Ok? && Adding(c, id, cid, token, path, retireIfNeeded) ==>
                  && (advertise ==> (id, r.value) in t.advertise && c.advertise <= t.advertise)
                  && (!advertise && DistinctPairs(c.advertise) ==>
                        (id, r.value) !in t.advertise && forall y :: y != (id, r.value) ==> (y in t.advertise <==> y in c.advertise)))
  {
    hide CidSpec.NewScid, InitialSource, InitialDestination, MarkAdvertise, SpaceOf, DistinctPairs;
    var (t, r) := PathSpaces.NewScid(c, id, cid, token, advertise, path, retireIfNeeded);
    if r.Ok? && Adding(c, id, cid, token, path, retireIfNeeded) {
      IdOfSpace(c.spaces, id);
      assert t.advertise == MarkAdvertise(c.advertise, (id, r.value), advertise);
      MarkedOn(c.advertise, (id, r.value));
      if DistinctPairs(c.advertise) {
        MarkedOff(c.advertise, (id, r.value));
      }
    }
  }

  lemma IdOfSpace(ss: seq<Space>, id: nat)
    ensures SpaceOf(ss, id) < |ss| ==> ss[SpaceOf(ss, id)].id == id
  {
  }

  /** The first ID of a space we open is answered with number 0. */
  lemma OpenAnswersZero(c: Conn, id: nat, cid: Cid, token: Option<nat>, advertise: bool, path: Option<FourTuple>)
    ensures var (t, r) := OpenWithScid(c, id, cid, token, advertise, path);
            && (r.Ok? ==> r.value == 0 && |t.spaces| == |c.spaces| + 1 && t.spaces[|c.spaces|].id == id)
            && (r.Ok? && advertise ==> (id, 0) in t.advertise)
            && (r.Err? ==> t == c)
  {
    hide InitialSource, InitialDestination, MarkAdvertise;
    MarkedOn(c.advertise, (id, 0));
  }

  /** Only two calls touch the queue. */
  lemma QueueUntouched(c: Conn, call: Call)
    requires !call.IssueScid? && !call.MarkOurs?
    ensures Apply(c, call).advertise == c.advertise
  {
    hide CidSpec.NewDcid, CidSpec.RetireScid, CidSpec.RetireDcid, Marked, SetInitialDcid, SetSourceLimit, RetireAll, Farewells,
         InitialSource, InitialDestination, SpaceOf;
  }

  lemma StepKeepsDistinct(c: Conn, call: Call)
    requires DistinctPairs(c.advertise)
    ensures DistinctPairs(Apply(c, call).advertise)
  {
    hide CidSpec.NewScid, InitialSource, InitialDestination, MarkAdvertise, SpaceOf, DistinctPairs;
    if call.IssueScid? {
      var r := PathSpaces.NewScid(c, call.id, call.cid, call.token, call.advertise, call.path, call.retireIfNeeded).1;
      if r.Ok? {
        MarkedOn(c.advertise, (call.id, r.value));
        MarkedOff(c.advertise, (call.id, r.value));
      }
    } else if call.MarkOurs? {
      MarkedOn(c.advertise, (call.id, call.num));
      MarkedOff(c.advertise, (call.id, call.num));
    } else {
      QueueUntouched(c, call);
    }
  }

  /** Over every run no pair is queued twice. */
  lemma {:induction false} RunKeepsDistinct(c: Conn, calls: seq<Call>)
    requires DistinctPairs(c.advertise)
    ensures DistinctPairs(Run(c, calls).advertise)
    decreases |calls|
  {
    hide Apply, DistinctPairs;
    if calls != [] {
      StepKeepsDistinct(c, calls[0]);
      RunKeepsDistinct(Apply(c, calls[0]), calls[1..]);
    }
  }

  /** The number was given to a source ID of the space. */
  ghost predicate Issued(s: Source, num: nat) {
    num < s.nextSeq || (s.initialized && num == 0)
  }

  /** What is queued for a path was issued on it. */
  ghost predicate QueueIssued(c: Conn, id: nat)
    requires SpaceOf(c.spaces, id) < |c.spaces|
  {
    forall p :: p in c.advertise && p.0 == id ==> Issued(PathHalves.SpaceAt(c, id).src, p.1)
  }

  /** A number once issued stays so. */
  lemma TouchedIssued(c: Conn, s: Space, call: Call, num: nat)
    requires Issued(s.src, num)
    ensures Issued(PathHalves.Touched(c, s, call).src, num)
  {
    hide CidSpec.NewScid, CidSpec.NewDcid, CidSpec.RetireScid, CidSpec.RetireDcid, Marked, SetInitialDcid, SetSourceLimit;
    match call {
      case IssueScid(_, cid, token, _, path, retireIfNeeded) =>
        SourceRuns.StepCounts(s.src, SourceRuns.Issue(cid, token, path, retireIfNeeded));
      case RetireOurs(_, num, pktDcid) => SourceRuns.StepCounts(s.src, SourceRuns.Retire(num, pktDcid));
      case Limit(v) => SourceRuns.StepCounts(s.src, SourceRuns.SetLimit(v));
      case _ =>
    }
  }

  /** The number answered for a new ID is issued from then on. */
  lemma AnswerIssued(s: Source, cid: Cid, token: Option<nat>, path: Option<FourTuple>, retireIfNeeded: bool)
    ensures var (t, r) := CidSpec.NewScid(s, cid, token, path, retireIfNeeded);
            r.Ok? && r.value.0 ==> Issued(t, r.value.1)
  {
    hide CidSpec.NewScid;
    SourceRuns.StepCounts(s, SourceRuns.Issue(cid, token, path, retireIfNeeded));
  }

  lemma QueuedByIssue(c: Conn, call: Call, id: nat, p: (nat, nat))
    requires SpacesInv(c) && SpaceOf(c.spaces, id) < |c.spaces| && call.IssueScid?
    requires p in Apply(c, call).advertise && p.0 == id && p !in c.advertise
    ensures SpaceOf(Apply(c, call).spaces, id) < |Apply(c, call).spaces|
    ensures Issued(PathHalves.SpaceAt(Apply(c, call), id).src, p.1)
  {
    hide CidSpec.NewScid, InitialSource, InitialDestination, MarkAdvertise, SpacesInv, SpaceOf, Issued, PathHalves.SpaceAt;
    var (t, r) := PathSpaces.NewScid(c, call.id, call.cid, call.token, call.advertise, call.path, call.retireIfNeeded);
    PathHalves.SpaceTouched(c, call, id);
    NewScidAdds(c, call, p);
    var s := PathHalves.SpaceAt(c, id);
    SpaceAtId(c, id);
    AnswerIssued(s.src, call.cid, call.token, call.path, call.retireIfNeeded);
  }

  lemma SpaceAtId(c: Conn, id: nat)
    requires SpaceOf(c.spaces, id) < |c.spaces|
    ensures PathHalves.SpaceAt(c, id).id == id && PathHalves.SpaceAt(c, id) == c.spaces[SpaceOf(c.spaces, id)]
  {
  }

  /** The only new pair is the one of the ID just issued. */
  lemma NewScidAdds(c: Conn, call: Call, p: (nat, nat))
    requires call.IssueScid? && p in Apply(c, call).advertise && p !in c.advertise
    ensures var r := PathSpaces.NewScid(c, call.id, call.cid, call.token, call.advertise, call.path, call.retireIfNeeded).1;
            && r.Ok? && p == (call.id, r.value) && Adding(c, call.id, call.cid, call.token, call.path, call.retireIfNeeded)
            && !c.zeroLengthScid && (call.token.Some? || call.id == 0)
            && (SpaceOf(c.spaces, call.id) < |c.spaces| ==>
                  var s := c.spaces[SpaceOf(c.spaces, call.id)].src;
                  r.value == CidSpec.NewScid(s, call.cid, call.token, call.path, call.retireIfNeeded).1.value.1)
  {
    hide CidSpec.NewScid, InitialSource, InitialDestination, SpaceOf, Without;
    IdOfSpace(c.spaces, call.id);
    var r := PathSpaces.NewScid(c, call.id, call.cid, call.token, call.advertise, call.path, call.retireIfNeeded).1;
    if r.Ok? {
      WithoutKeeps(c.advertise, (call.id, r.value), p);
    }
  }

  lemma {:induction false} WithoutKeeps(q: Queue, x: (nat, nat), p: (nat, nat))
    ensures p in Without(q, x) ==> p in q
  {
    WithoutOne(q, x);
  }

  lemma StepKeepsIssued(c: Conn, call: Call, id: nat)
    requires SpacesInv(c) && SpaceOf(c.spaces, id) < |c.spaces| && QueueIssued(c, id) && call != ClosePath(id)
    requires call.MarkOurs? && call.id == id && call.advertise ==> Issued(PathHalves.SpaceAt(c, id).src, call.num)
    ensures SpaceOf(Apply(c, call).spaces, id) < |Apply(c, call).spaces| && QueueIssued(Apply(c, call), id)
  {
    hide Issued, PathHalves.SpaceAt, PathHalves.Touched, SpacesInv, SpaceOf, PathSpaces.NewScid;
    PathHalves.SpaceTouched(c, call, id);
    var t := Apply(c, call);
    forall p | p in t.advertise && p.0 == id ensures Issued(PathHalves.SpaceAt(t, id).src, p.1) {
      if p in c.advertise {
        TouchedIssued(c, PathHalves.SpaceAt(c, id), call, p.1);
      } else if call.IssueScid? {
        QueuedByIssue(c, call, id, p);
      } else if call.MarkOurs? {
        WithoutKeeps(c.advertise, (call.id, call.num), p);
        TouchedIssued(c, PathHalves.SpaceAt(c, id), call, p.1);
      } else {
        QueueUntouched(c, call);
      }
    }
  }

  /** Numbers put back into the queue, for a frame that was lost, were issued. */
  ghost predicate Requeues(c: Conn, calls: seq<Call>, id: nat)
    decreases |calls|
  {
    calls == [] ||
    ((SpaceOf(c.spaces, id) < |c.spaces| && calls[0].MarkOurs? && calls[0].id == id && calls[0].advertise ==>
        Issued(PathHalves.SpaceAt(c, id).src, calls[0].num))
     && Requeues(Apply(c, calls[0]), calls[1..], id))
  }

  /** Over every run that leaves a path open, every number queued for it was issued on it. */
  lemma {:induction false} RunKeepsIssued(c: Conn, calls: seq<Call>, id: nat)
    requires SpacesInv(c) && SpaceOf(c.spaces, id) < |c.spaces| && QueueIssued(c, id)
    requires ClosePath(id) !in calls && Requeues(c, calls, id)
    ensures var t := Run(c, calls);
            SpaceOf(t.spaces, id) < |t.spaces| && QueueIssued(t, id)
    decreases |calls|
  {
    hide Apply, QueueIssued, SpacesInv, SpaceOf;
    if calls != [] {
      StepKeepsIssued(c, calls[0], id);
      ApplyKeeps(c, calls[0]);
      RunKeepsIssued(Apply(c, calls[0]), calls[1..], id);
    }
  }

  // -------------------------------------------------------------------------
  // Building the frames of the queue
  // -------------------------------------------------------------------------

  /** `get_path_connection_id_frame_for`. */
  function FrameOf(c: Conn, id: nat, num: nat): Result<CidProtocol.NewCid> {
    var i := SpaceOf(c.spaces, id);
    if i == |c.spaces| then Err(OutOfPathId) else CidProtocol.FrameFor(c.spaces[i].src, num)
  }

  /** A frame can be built exactly for a stored ID with a token; it carries that ID, that token and the floor in force. */
  lemma FrameOfIff(c: Conn, id: nat, num: nat)
    ensures var i := SpaceOf(c.spaces, id);
            FrameOf(c, id, num).Ok? <==>
              i < |c.spaces| && (var es := c.spaces[i].src.scids.inner;
                                 IndexOf(es, num) < |es| && es[IndexOf(es, num)].token.Some?)
    ensures FrameOf(c, id, num).Ok? ==>
              var s := c.spaces[SpaceOf(c.spaces, id)].src;
              var e := s.scids.inner[IndexOf(s.scids.inner, num)];
              FrameOf(c, id, num).value == CidProtocol.NewCid(num, s.retirePriorTo, e.cid, e.token.value)
  {
  }

  /** Every queued pair can be built into a frame; otherwise the next packet fails on the first that cannot. */
  ghost predicate Buildable(c: Conn) {
    forall p :: p in c.advertise ==> FrameOf(c, p.0, p.1).Ok?
  }

  lemma FramesAfterClose(c: Conn, id: nat, n: nat, num: nat)
    requires SpacesInv(c) && SpaceOf(c.spaces, n) < |c.spaces|
    ensures var t := RemovePathId(c, id).0;
            FrameOf(t, n, num) == if n == id && |c.spaces| >= 2 then Err(OutOfPathId) else FrameOf(c, n, num)
  {
    hide CidProtocol.FrameFor, SpacesInv, RemovePathId, SpaceOf;
    var t := RemovePathId(c, id).0;
    PathHalves.OpenAfterClose(c, id, n);
    if n != id || |c.spaces| == 1 {
      PathHalves.CloseTouches(c, ClosePath(id));
      CloseIsApply(c, id);
    }
  }

  lemma CloseIsApply(c: Conn, id: nat)
    ensures Apply(c, ClosePath(id)) == RemovePathId(c, id).0 && RemovePathId(c, id).0.advertise == c.advertise
    ensures forall s :: PathHalves.Touched(c, s, ClosePath(id)) == s
  {
    hide RetireAll, Farewells, SpaceOf;
  }

  /**
   Closing a path leaves its queued numbers behind, and no frame can be built for them any more: every queued
   pair stays buildable exactly when none is of that path, or the path is the last and stays.
   */
  lemma CloseKeepsBuildableIff(c: Conn, id: nat)
    requires SpacesInv(c) && Buildable(c)
    ensures Buildable(RemovePathId(c, id).0) <==> |c.spaces| == 1 || forall p :: p in c.advertise ==> p.0 != id
  {
    hide RemovePathId, FrameOf, SpacesInv;
    CloseIsApply(c, id);
    forall p | p in c.advertise
      ensures FrameOf(RemovePathId(c, id).0, p.0, p.1).Ok? <==> p.0 != id || |c.spaces| == 1
    {
      BuiltHasSpace(c, p.0, p.1);
      FramesAfterClose(c, id, p.0, p.1);
      AtLeastOne(c);
    }
  }

  lemma AtLeastOne(c: Conn)
    requires SpacesInv(c)
    ensures |c.spaces| >= 1
  {
  }

  lemma BuiltHasSpace(c: Conn, id: nat, num: nat)
    requires FrameOf(c, id, num).Ok?
    ensures SpaceOf(c.spaces, id) < |c.spaces|
  {
  }

  /** Reached in two calls: a path is opened with an ID to advertise and closed before the frame was sent. */
  lemma ClosedPathStopsSending(c: Conn, id: nat, cid: Cid, token: nat, path: Option<FourTuple>)
    requires SpacesInv(c) && SpaceOf(c.spaces, id) == |c.spaces| && c.advertise == []
    requires OpenWithScid(c, id, cid, Some(token), true, path).1.Ok?
    ensures var o := OpenWithScid(c, id, cid, Some(token), true, path).0;
            var t := RemovePathId(o, id).0;
            && o.advertise == [(id, 0)] && FrameOf(o, id, 0).Ok?
            && t.advertise == [(id, 0)] && FrameOf(t, id, 0) == Err(OutOfPathId)
  {
    hide InitialDestination, SpaceOf, RemovePathId, SpacesInv;
    var o := OpenWithScid(c, id, cid, Some(token), true, path).0;
    AtLeastOne(c);
    OpenedAtEnd(c, id, cid, Some(token), path);
    CloseIsApply(o, id);
    FramesAfterClose(o, id, id, 0);
  }

  lemma OpenedAtEnd(c: Conn, id: nat, cid: Cid, token: Option<nat>, path: Option<FourTuple>)
    requires SpacesInv(c) && SpaceOf(c.spaces, id) == |c.spaces| && c.advertise == []
    requires OpenWithScid(c, id, cid, token, true, path).1.Ok?
    ensures var o := OpenWithScid(c, id, cid, token, true, path).0;
            && SpacesInv(o) && |o.spaces| == |c.spaces| + 1 && SpaceOf(o.spaces, id) == |c.spaces| && o.advertise == [(id, 0)]
            && o.spaces[|c.spaces|].src == InitialSource(c.sourceLimit, Some(cid), path, token)
  {
    hide InitialDestination, InitialSource;
    var s := Space(id, InitialSource(c.sourceLimit, Some(cid), path, token),
                   InitialDestination(c.destinationLimit, Some(cid), None, path, token));
    OpenSpaceKeeps(c, s);
    var o := OpenWithScid(c, id, cid, token, true, path).0;
    assert o.spaces == c.spaces + [s] && o.spaces[|c.spaces|].id == id;
    assert forall j :: 0 <= j < |c.spaces| ==> o.spaces[j].id == c.spaces[j].id != id;
    assert [] + [(id, 0)] == [(id, 0)];
  }

  // -------------------------------------------------------------------------
  // Notifications
  // -------------------------------------------------------------------------

  /** Closing a path tells the application every source ID it had, in order, and nothing else. */
  lemma CloseTells(c: Conn, i: nat)
    requires SpacesInv(c) && i < |c.spaces| && |c.spaces| >= 2
    ensures var s := c.spaces[i];
            var (t, r) := RemovePathId(c, s.id);
            && |t.retiredScids| == |c.retiredScids| + (if r.Ok? then |s.src.scids.inner| else 0)
            && c.retiredScids <= t.retiredScids
            && (r.Ok? ==> forall k :: 0 <= k < |s.src.scids.inner| ==>
                  t.retiredScids[|c.retiredScids| + k] == (s.id, s.src.scids.inner[k].cid))
  {
    hide RetireAll;
    assert SpaceOf(c.spaces, c.spaces[i].id) == i;
  }

  /** A retired source ID is told exactly when it leaves, with its network path as the answer. */
  lemma RetireTells(c: Conn, i: nat, num: nat, pktDcid: Cid)
    requires SpacesInv(c) && i < |c.spaces|
    ensures var s := c.spaces[i];
            var (t, r) := PathSpaces.RetireScid(c, s.id, num, pktDcid);
            var answer := CidSpec.RetireScid(s.src, num, pktDcid).1;
            && (answer.Ok? && answer.value.Some? ==>
                  t.retiredScids == c.retiredScids + [(s.id, answer.value.value.cid)] && r == Ok(answer.value.value.path))
            && (answer == Ok(None) ==> t.retiredScids == c.retiredScids && r == Ok(None))
            && (answer.Err? ==> t.retiredScids == c.retiredScids && r == Err(answer.error))
  {
    hide CidSpec.RetireScid;
    assert SpaceOf(c.spaces, c.spaces[i].id) == i;
  }

  // -------------------------------------------------------------------------
  // Refusals, in the order they are checked
  // -------------------------------------------------------------------------

  /** Why a source ID is refused before its space is looked at, and why a space is not opened. */
  lemma NewScidRefusals(c: Conn, id: nat, cid: Cid, token: Option<nat>, advertise: bool, path: Option<FourTuple>, retireIfNeeded: bool)
    requires SpacesInv(c) && SpaceOf(c.spaces, id) == |c.spaces|
    ensures var (t, r) := PathSpaces.NewScid(c, id, cid, token, advertise, path, retireIfNeeded);
            && r == (if c.zeroLengthScid || (token.None? && id != 0) then Err(InvalidState)
                     else if id > MaxPathId(c) || id in c.closed then Err(OutOfPathId)
                     else Ok(0))
            && (r.Err? ==> t == c)
  {
    hide InitialSource, InitialDestination, MarkAdvertise, SpacesInv, SpaceOf;
    OpenSpaceSucceedsIff(c, Space(id, InitialSource(c.sourceLimit, Some(cid), path, token),
                                  InitialDestination(c.destinationLimit, Some(cid), None, path, token)));
  }

  /** The same for a frame on a path without a space, and a peer without connection IDs. */
  lemma NewDcidRefusals(c: Conn, id: nat, cid: Cid, num: nat, token: nat, floor: nat)
    requires SpacesInv(c) && SpaceOf(c.spaces, id) == |c.spaces|
    ensures var (t, r) := PathSpaces.NewDcid(c, id, cid, num, token, floor);
            && r == (if c.zeroLengthDcid then Err(InvalidState)
                     else if id > MaxPathId(c) || id in c.closed then Err(OutOfPathId)
                     else Ok(()))
            && (r.Err? ==> t == c)
  {
    hide InitialSource, InitialDestination, SpacesInv, SpaceOf;
    OpenSpaceSucceedsIff(c, Space(id, InitialSource(c.sourceLimit, None, None, Some(token)),
                                  InitialDestination(c.destinationLimit, None, Some(cid), None, Some(token))));
  }

  /** Calls on a path without a space: a retirement by the peer and one on a closed path are ignored. */
  lemma AbsentAnswers(c: Conn, id: nat, num: nat, pktDcid: Cid, retire: bool)
    requires SpaceOf(c.spaces, id) == |c.spaces|
    ensures PathSpaces.RetireScid(c, id, num, pktDcid) == (c, Ok(None))
    ensures PathSpaces.RetireDcid(c, id, num) ==
              (c, if c.zeroLengthDcid then Err(InvalidState) else if id in c.closed then Ok(None) else Err(OutOfPathId))
    ensures MarkRetireDcidSeq(c, id, num, retire) == (c, Err(UnavailablePath))
    ensures ClosingPathId(c, id) == c
  {
  }

  /** Closing: a closed path stays closed, one not allowed is an error, the last one stays, one without a space is recorded. */
  lemma CloseAnswers(c: Conn, id: nat)
    ensures id in c.closed ==> RemovePathId(c, id) == (c, Ok(()))
    ensures id !in c.closed && id > MaxPathId(c) ==> RemovePathId(c, id) == (c, Err(PathIdViolation))
    ensures id !in c.closed && id <= MaxPathId(c) && |c.spaces| <= 1 ==> RemovePathId(c, id) == (c, Err(OutOfIdentifiers))
    ensures id !in c.closed && id <= MaxPathId(c) && |c.spaces| >= 2 && SpaceOf(c.spaces, id) == |c.spaces| ==>
              RemovePathId(c, id) == (c.(closed := c.closed + [id]), Ok(()))
  {
  }

  // -------------------------------------------------------------------------
  // What later calls see
  // -------------------------------------------------------------------------

  /** On a closing space a call for the last ID waits, on either side; before, it was refused. */
  lemma ClosingSpaceKeepsLast(c: Conn, i: nat, num: nat, pktDcid: Cid)
    requires SpacesInv(c) && i < |c.spaces| && !c.zeroLengthDcid
    ensures var id := c.spaces[i].id;
            var t := ClosingPathId(c, id);
            && (|c.spaces[i].dst.dcids.inner| == 1 ==> PathSpaces.RetireDcid(t, id, num) == (t, Ok(None)))
            && (|c.spaces[i].dst.dcids.inner| == 1 && !c.spaces[i].dst.closing ==>
                  PathSpaces.RetireDcid(c, id, num).1 == Err(OutOfIdentifiers))
            && (|c.spaces[i].src.scids.inner| == 1 && num < c.spaces[i].src.nextSeq ==>
                  PathSpaces.RetireScid(t, id, num, pktDcid) == (t, Ok(None)))
  {
    hide SpaceOf, IndexOf;
    var id := c.spaces[i].id;
    PlaceOfSpace(c, i);
    var t := ClosingPathId(c, id);
    assert t.spaces == c.spaces[i := Closing(c.spaces[i])];
    PlaceAfterClosing(c, i, t);
    assert t.spaces[i := t.spaces[i]] == t.spaces;
  }

  lemma PlaceOfSpace(c: Conn, i: nat)
    requires SpacesInv(c) && i < |c.spaces|
    ensures SpaceOf(c.spaces, c.spaces[i].id) == i
  {
  }

  lemma PlaceAfterClosing(c: Conn, i: nat, t: Conn)
    requires SpacesInv(c) && i < |c.spaces| && t.spaces == c.spaces[i := Closing(c.spaces[i])]
    ensures SpaceOf(t.spaces, c.spaces[i].id) == i
  {
    assert forall j :: 0 <= j < |t.spaces| ==> t.spaces[j].id == c.spaces[j].id;
  }

  /** A number marked not to be retired is gone from the set, one marked to be retired is in it; no other changes. */
  lemma MarkedEffect(d: Destination, num: nat, retire: bool)
    ensures var (t, r) := Marked(d, num, retire);
            && t == d.(retired := t.retired)
            && (forall n :: n != num ==> (n in t.retired <==> n in d.retired))
            && (r.Ok? ==> (num in t.retired <==> retire))
            && (r.Err? <==> retire && |d.retired| >= d.retiredCapacity) && (r.Err? ==> r == Err(IdLimit) && t == d)
  {
  }

  /** Path IDs are consumed in increasing order, the same one again only if it was put on the heap twice. */
  lemma ConsumedInOrder(c: Conn)
    requires c.spare != multiset{}
    ensures var m := LowestSpare(c.spare).value;
            var t := ConsumeSpare(c);
            && t.spare[m] == c.spare[m] - 1 && (forall n :: n != m ==> t.spare[n] == c.spare[n])
            && t == c.(spare := t.spare)
            && (t.spare != multiset{} ==> LowestSpare(t.spare).value >= m)
            && (t.spare != multiset{} ==> (LowestSpare(t.spare).value == m <==> c.spare[m] >= 2))
  {
    hide LowestSpare;
    var m := LowestSpare(c.spare).value;
    var t := ConsumeSpare(c);
    if t.spare != multiset{} {
      var n := LowestSpare(t.spare).value;
      assert n in c.spare;
      if c.spare[m] >= 2 {
        assert m in t.spare;
      }
    }
  }

  /** A frame for a path reports the network paths its space reports; one for an absent path reports none. */
  lemma LostPathsAre(c: Conn, id: nat, cid: Cid, num: nat, floor: nat)
    requires !c.zeroLengthDcid
    ensures var i := SpaceOf(c.spaces, id);
            && (i < |c.spaces| ==> LostPaths(c, id, cid, num, floor) == RetiredPaths(c.spaces[i].dst, cid, num, floor))
            && (i == |c.spaces| ==> LostPaths(c, id, cid, num, floor) == [])
  {
  }

  /** A new space at the end, as large as both limits say, which count from two; its retire set is three times as large. */
  ghost predicate Roomy(c: Conn, t: Conn, id: nat) {
    |t.spaces| == |c.spaces| + 1 &&
    var s := t.spaces[|c.spaces|];
    && s.id == id && s.src.limit == AtLeast(2, c.sourceLimit) && s.src.scids.capacity == 2 * s.src.limit - 1
    && s.dst.dcids.capacity == AtLeast(2, c.destinationLimit)
    && s.dst.retiredCapacity == 3 * s.dst.dcids.capacity && s.dst.retired == {}
  }

  lemma NewSpaceRoom(c: Conn, id: nat, cid: Cid, num: nat, token: nat, floor: nat, advertise: bool, path: Option<FourTuple>)
    requires SpaceOf(c.spaces, id) == |c.spaces|
    ensures var (t, r) := PathSpaces.NewDcid(c, id, cid, num, token, floor); r.Ok? ==> Roomy(c, t, id)
    ensures var (t, r) := OpenWithScid(c, id, cid, Some(token), advertise, path); r.Ok? ==> Roomy(c, t, id)
  {
  }

  /** A space opened after the limit was set has that limit, and room for it. */
  lemma NewSpaceHasLimit(c: Conn, v: nat, id: nat, cid: Cid, num: nat, token: nat, floor: nat)
    requires SpacesInv(c) && SpaceOf(c.spaces, id) == |c.spaces| && v >= 2
    requires PathSpaces.NewDcid(LimitSource(c, v), id, cid, num, token, floor).1.Ok?
    ensures var t := PathSpaces.NewDcid(LimitSource(c, v), id, cid, num, token, floor).0;
            var s := t.spaces[|c.spaces|].src;
            s.limit == (if v <= USIZE_MAX / 2 then v else USIZE_MAX / 2) && s.scids.capacity == 2 * s.limit - 1
  {
    hide SetSourceLimit, SpaceOf;
    var l := LimitSource(c, v);
    AbsentAfterLimit(c, v, id);
  }

  lemma AbsentAfterLimit(c: Conn, v: nat, id: nat)
    requires SpaceOf(c.spaces, id) == |c.spaces|
    ensures SpaceOf(LimitSource(c, v).spaces, id) == |LimitSource(c, v).spaces|
  {
    hide SetSourceLimit;
    var l := LimitSource(c, v);
    assert forall j :: 0 <= j < |l.spaces| ==> l.spaces[j].id == c.spaces[j].id != id;
  }

  /** A peer that uses no connection IDs gets none, and has none to retire. */
  lemma ZeroLengthPeer(c: Conn, first: Cid, t0: Option<nat>, path: Option<FourTuple>, id: nat, cid: Cid, num: nat, token: nat, floor: nat)
    ensures var t := LearnDcid(c, first, t0, path);
            && (first == [] ==> PathSpaces.NewDcid(t, id, cid, num, token, floor) == (t, Err(InvalidState))
                                && PathSpaces.RetireDcid(t, id, num) == (t, Err(InvalidState)))
            && (first != [] ==> !t.zeroLengthDcid)
  {
    hide SetInitialDcid, SpaceOf;
  }

  /** The handshake ID is then the only destination ID of path 0, with number 0. */
  lemma LearntId(c: Conn, first: Cid, t0: Option<nat>, path: Option<FourTuple>)
    requires SpaceOf(c.spaces, 0) < |c.spaces|
    ensures var i := SpaceOf(c.spaces, 0);
            var d := LearnDcid(c, first, t0, path).spaces[i].dst;
            d.initialized && d.dcids.inner == [Entry(first, 0, t0, path)] && d.dcids.capacity == c.spaces[i].dst.dcids.capacity
            && d.retired == c.spaces[i].dst.retired
  {
  }

  /** Whoever starts with a zero-length source ID can issue none; anyone else has a number to issue from. */
  lemma ZeroLengthOurs(limit: nat, first: Cid, own: FourTuple, t0: Option<nat>, cid: Cid, token: nat, advertise: bool)
    ensures var c := FreshConn(limit, first, own, t0);
            var r := PathSpaces.NewScid(c, 0, cid, Some(token), advertise, None, false);
            if first == [] then r == (c, Err(InvalidState))
            else if cid != first then r.1 == Ok(1)
            else r == (c, if t0 == Some(token) then Ok(0) else Err(InvalidState))
  {
    hide InitialDestination, LowestUsable;
    var c := FreshConn(limit, first, own, t0);
    assert SpaceOf(c.spaces, 0) == 0;
    assert c.spaces[0 := c.spaces[0]] == c.spaces;
    assert IndexOfCid(c.spaces[0].src.scids.inner, cid) == if cid == first then 0 else 1;
  }

  /** Limits only rise, and the wish to announce ours is raised only by a rise that asks for it. */
  lemma AllowedEffect(c: Conn, v: nat, announce: bool)
    ensures var t := SetLocalMax(c, v, announce);
            && t.localMax == (if v > c.localMax then v else c.localMax) && t.remoteMax == c.remoteMax
            && (t.advertiseMax <==> c.advertiseMax || (announce && v > c.localMax))
            && (if v <= c.localMax then t == c else t.capacity == AtLeast(c.capacity, 1 + MaxPathId(t)))
    ensures var t := SetRemoteMax(c, v);
            && t.remoteMax == (if v > c.remoteMax then v else c.remoteMax) && t.localMax == c.localMax
            && t.advertiseMax == c.advertiseMax
            && (if v <= c.remoteMax then t == c else t.capacity == AtLeast(c.capacity, 1 + MaxPathId(t)))
  {
  }

  function AtLeast(a: nat, b: nat): nat {
    if a >= b then a else b
  }

  /** The largest path ID is that of a space opened so far: it moves only to the ID being opened. */
  lemma OpenEffect(c: Conn, s: Space)
    requires OpenSpace(c, s).Ok?
    ensures var t := OpenSpace(c, s).value;
            && t.spaces == c.spaces + [s] && s.id <= t.largest && c.largest <= t.largest && (t.largest == c.largest || t.largest == s.id)
            && t.spare[s.id] == c.spare[s.id] + 1 && (forall n :: n != s.id ==> t.spare[n] == c.spare[n])
            && t.closed == c.closed && t.advertise == c.advertise && t.retiredScids == c.retiredScids
  {
  }
}
