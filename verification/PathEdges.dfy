/**
 Where the path-ID spaces of quiche/src/cid.rs do not do what one would expect of them, and exactly when.
 */
module PathEdges {
  import opened Common
  import opened CidSpec
  import opened PathSpaces
  import PathHalves
  import DestinationRuns

  /** There is room in the space's own retire set for all of its active destination IDs. */
  ghost predicate FitsOnClose(d: Destination) {
    var es := d.dcids.inner;
    es == [] || |d.retired + Nums(es[..|es| - 1])| < d.retiredCapacity
  }

  /**
   Closing a path that has a space takes effect exactly when the retire set is not full before the last
   of its active destination IDs; for distinct IDs not retired yet, exactly when they all fit. Otherwise
   the space is gone but the path ID is not recorded as closed.
   */
  lemma CloseRecordedIff(c: Conn, i: nat)
    requires SpacesInv(c) && i < |c.spaces| && |c.spaces| >= 2
    ensures var s := c.spaces[i];
            var es := s.dst.dcids.inner;
            var (t, r) := RemovePathId(c, s.id);
            && SpaceOf(t.spaces, s.id) == |t.spaces|
            && (r.Ok? <==> s.id in t.closed)
            && (r.Ok? <==> FitsOnClose(s.dst))
            && (|Nums(es)| == |es| && Nums(es) !! s.dst.retired && |s.dst.retired| <= s.dst.retiredCapacity ==>
                  (r.Ok? <==> |s.dst.retired| + |es| <= s.dst.retiredCapacity))
  {
    hide RetireAll, Farewells, Nums;
    var s := c.spaces[i];
    var es := s.dst.dcids.inner;
    assert SpaceOf(c.spaces, s.id) == i;
    DropSpace(c.spaces, i);
    DestinationRuns.RetireAllIff(s.dst.retired, s.dst.retiredCapacity, es);
    if |Nums(es)| == |es| && Nums(es) !! s.dst.retired && |s.dst.retired| <= s.dst.retiredCapacity {
      DestinationRuns.RetireAllCounts(s.dst.retired, s.dst.retiredCapacity, es);
    }
  }

  // A run that leaves a path closed and unrecorded: the peer renews its only destination ID six times.

  /** The numbers below `k`. */
  function UpTo(k: nat): (ns: set<nat>)
    ensures |ns| == k && forall n :: n in ns <==> 0 <= n < k
  {
    if k == 0 then {} else UpTo(k - 1) + {k - 1}
  }

  /** The destination side of path 1 once ID `k` has replaced all earlier ones, none announced yet. */
  function Churned(token: nat, k: byte): Destination {
    Destination(Deque([Entry([k], k, if k == 0 then None else Some(token), None)], 2), UpTo(k), 6, k, k, false, true)
  }

  /** The connection with path 1 open and in that state. */
  function Churning(c: Conn, token: nat, k: byte): Conn
    requires |c.spaces| == 1
  {
    c.(spaces := c.spaces + [Space(1, InitialSource(2, None, None, Some(token)), Churned(token, k))],
       capacity := 2, localMax := 1, remoteMax := 1, spare := multiset{1}, largest := 1)
  }

  /** The frames that replace ID `k - 1` by ID `k`, up to 6. */
  function Renewals(token: nat, k: byte): seq<Call>
    decreases 7 - k
  {
    if k > 6 then [] else [ReceiveDcid(1, [k], k, token, k)] + Renewals(token, k + 1)
  }

  function OpenPathOne(token: nat): seq<Call> {
    [AllowLocal(1, false), AllowRemote(1), ReceiveDcid(1, [0], 0, token, 0)]
  }

  lemma {:induction false} RunAppend(c: Conn, a: seq<Call>, b: seq<Call>)
    ensures Run(c, a + b) == Run(Run(c, a), b)
    decreases |a|
  {
    if a == [] {
      assert a + b == b;
    } else {
      assert (a + b)[1..] == a[1..] + b;
      RunAppend(Apply(c, a[0]), a[1..], b);
    }
  }

  lemma ChurnStep(token: nat, k: byte)
    requires 1 <= k <= 6
    ensures CidSpec.NewDcid(Churned(token, k - 1), [k], k, token, k) == (Churned(token, k), Ok(()))
  {
    var d := Churned(token, k - 1);
    var es := d.dcids.inner;
    assert IndexOfEither(es, [k], k) == 1 by { assert es[0].cid[0] != k; }
    assert PartitionPoint(es, k) == 1 && es[..1] == es && es[1..] == [];
    assert |d.retired| == k - 1;
    assert d.retired + {es[0].num} == Churned(token, k).retired;
    assert RetireAll(d.retired, 6, es) == RetireAll(d.retired + {es[0].num}, 6, []) == (Churned(token, k).retired, true);
    var e := Entry([k], k, Some(token), None);
    assert [] + [e] == [e] && Deque([], 2).Insert(e) == Ok(Deque([e], 2));
    assert StoreDcid(d.(largestSeq := k), e, k) == (Churned(token, k), Ok(()));
  }

  lemma AllowsPathOne(c: Conn)
    requires |c.spaces| == 1 && c.capacity == 1 && c.localMax == 0 && c.remoteMax == 0
    ensures Apply(Apply(c, AllowLocal(1, false)), AllowRemote(1)) == c.(capacity := 2, localMax := 1, remoteMax := 1)
  {
  }

  lemma ReceivesPathOne(c: Conn, token: nat)
    requires |c.spaces| == 1 && c.spaces[0].id == 0 && c.closed == [] && !c.zeroLengthDcid
    requires c.capacity == 2 && c.localMax == 1 && c.remoteMax == 1 && c.destinationLimit == 2 && c.sourceLimit == 2
    requires c.spare == multiset{} && c.largest == 0
    ensures Apply(c, ReceiveDcid(1, [0], 0, token, 0)) == Churning(c, token, 0)
  {
    assert SpaceOf(c.spaces, 1) == 1;
  }

  lemma OpensPathOne(scid: Cid, path: FourTuple, t0: Option<nat>, token: nat)
    ensures var c := FreshConn(2, scid, path, t0);
            Run(c, OpenPathOne(token)) == Churning(c, token, 0)
  {
    hide Apply, InitialSource, InitialDestination;
    var c := FreshConn(2, scid, path, t0);
    var calls := OpenPathOne(token);
    assert calls[1..] == [AllowRemote(1), ReceiveDcid(1, [0], 0, token, 0)];
    assert calls[1..][1..] == [ReceiveDcid(1, [0], 0, token, 0)] && calls[1..][1..][1..] == [];
    var a := c.(capacity := 2, localMax := 1, remoteMax := 1);
    AllowsPathOne(c);
    ReceivesPathOne(a, token);
    assert Run(c, calls) == Run(a, [calls[2]]) == Run(Churning(a, token, 0), []);
  }

  lemma RenewalStep(c: Conn, token: nat, k: byte)
    requires |c.spaces| == 1 && c.spaces[0].id == 0 && !c.zeroLengthDcid && 1 <= k <= 6
    ensures Apply(Churning(c, token, k - 1), ReceiveDcid(1, [k], k, token, k)) == Churning(c, token, k)
  {
    hide Churned, UpTo, CidSpec.NewDcid, InitialSource, InitialDestination;
    var y := Churning(c, token, k - 1);
    assert y.spaces[0].id == 0 && y.spaces[1].id == 1;
    assert SpaceOf(y.spaces, 1) == 1;
    ChurnStep(token, k);
  }

  lemma {:induction false} RenewalsRun(c: Conn, token: nat, k: byte)
    requires |c.spaces| == 1 && c.spaces[0].id == 0 && !c.zeroLengthDcid && 1 <= k <= 7
    ensures Run(Churning(c, token, k - 1), Renewals(token, k)) == Churning(c, token, 6)
    decreases 7 - k
  {
    hide Churning, Apply;
    if k <= 6 {
      RenewalStep(c, token, k);
      assert Renewals(token, k)[1..] == Renewals(token, k + 1);
      RenewalsRun(c, token, k + 1);
    }
  }

  /** Six renewals whose retirements are not announced yet fill the retire set; closing the path then fails half-way. */
  lemma CloseCanGoUnrecorded(scid: Cid, path: FourTuple, t0: Option<nat>, token: nat)
    ensures var c := Run(FreshConn(2, scid, path, t0), OpenPathOne(token) + Renewals(token, 1));
            var (d, r) := RemovePathId(c, 1);
            && SpaceOf(c.spaces, 1) < |c.spaces| && SpaceOf(d.spaces, 1) == |d.spaces|
            && r == Err(IdLimit) && 1 !in d.closed
  {
    hide Run, Renewals, OpenPathOne, FreshConn, RemovePathId;
    var c0 := FreshConn(2, scid, path, t0);
    FreshIsOne(scid, path, t0);
    RunAppend(c0, OpenPathOne(token), Renewals(token, 1));
    OpensPathOne(scid, path, t0, token);
    RenewalsRun(c0, token, 1);
    ChurningInv(scid, path, t0, token, 6);
    ChurnedCannotClose(c0, token);
  }

  lemma ChurnedIsFull(token: nat)
    ensures !FitsOnClose(Churned(token, 6))
  {
    hide Nums;
    var d := Churned(token, 6);
    DestinationRuns.NumsSizes(d.dcids.inner[..0]);
    assert d.retired + {} == d.retired;
  }

  lemma ChurnedCannotClose(c: Conn, token: nat)
    requires |c.spaces| == 1 && c.spaces[0].id == 0 && SpacesInv(Churning(c, token, 6))
    ensures var y := Churning(c, token, 6);
            var (d, r) := RemovePathId(y, 1);
            && SpaceOf(y.spaces, 1) < |y.spaces| && SpaceOf(d.spaces, 1) == |d.spaces|
            && r == Err(IdLimit) && 1 !in d.closed
  {
    hide InitialSource, InitialDestination, Farewells, RetireAll, SpacesInv, Nums, Churned, FitsOnClose;
    var y := Churning(c, token, 6);
    assert y.spaces[0].id == 0 && y.spaces[1].id == 1;
    assert SpaceOf(y.spaces, 1) == 1;
    ChurnedIsFull(token);
    CloseRecordedIff(y, 1);
  }

  // -------------------------------------------------------------------------
  // Spare path IDs
  // -------------------------------------------------------------------------

  /** Every spare path ID has a space, so the next path to use is one that can be used. */
  ghost predicate SpareOpen(c: Conn) {
    forall n :: n in c.spare ==> SpaceOf(c.spaces, n) < |c.spaces|
  }

  lemma LowestSpareIsOpen(c: Conn)
    requires SpacesInv(c) && SpareOpen(c) && c.spare != multiset{}
    ensures var id := LowestSpare(c.spare).value;
            SpaceOf(c.spaces, id) < |c.spaces| && id !in c.closed
  {
  }

  /** Closing a path leaves a spare ID without a space exactly when it is the ID of a path still spare. */
  lemma CloseKeepsSpareIff(c: Conn, id: nat)
    requires SpacesInv(c) && SpareOpen(c)
    ensures SpareOpen(RemovePathId(c, id).0) <==> id !in c.spare || |c.spaces| == 1
  {
    hide RemovePathId, SpaceOf, SpacesInv;
    SpareUntouched(c, id);
    forall n | n in c.spare
      ensures var t := RemovePathId(c, id).0; SpaceOf(t.spaces, n) < |t.spaces| <==> n != id || |c.spaces| == 1
    {
      PathHalves.OpenAfterClose(c, id, n);
    }
  }

  lemma SpareUntouched(c: Conn, id: nat)
    ensures RemovePathId(c, id).0.spare == c.spare
  {
  }

  /** A space that exists survives every call but its own closing, and a new spare ID comes with its space. */
  lemma StepKeepsSpareIff(c: Conn, call: Call)
    requires SpacesInv(c) && SpareOpen(c)
    ensures SpareOpen(Apply(c, call)) <==> !(call.ClosePath? && call.id in c.spare && |c.spaces| >= 2)
  {
    hide Apply, SpaceOf, SpacesInv;
    if call.ClosePath? {
      CloseKeepsSpareIff(c, call.id);
      assert Apply(c, call) == RemovePathId(c, call.id).0 by { ApplyCloses(c, call.id); }
    } else {
      SpareGrows(c, call);
      forall n | n in Apply(c, call).spare ensures SpaceOf(Apply(c, call).spaces, n) < |Apply(c, call).spaces| {
        if SpaceOf(c.spaces, n) < |c.spaces| {
          PathHalves.StaysOpen(c, call, n);
        }
      }
    }
  }

  lemma ApplyCloses(c: Conn, id: nat)
    ensures Apply(c, ClosePath(id)) == RemovePathId(c, id).0
  {
  }

  /** A call adds a path ID to the heap only together with its space. */
  lemma SpareGrows(c: Conn, call: Call)
    requires !call.ClosePath?
    ensures forall n :: n in Apply(c, call).spare ==>
                          n in c.spare || SpaceOf(Apply(c, call).spaces, n) < |Apply(c, call).spaces|
  {
    hide PathSpaces.NewScid, PathSpaces.NewDcid, PathSpaces.RetireScid, PathSpaces.RetireDcid, MarkRetireDcidSeq, ClosingPathId,
         LearnDcid, LimitSource, SpaceOf;
    var t := Apply(c, call);
    if call.IssueScid? {
      PathHalves.IssueGrows(c, call);
    } else if call.ReceiveDcid? {
      PathHalves.ReceiveGrows(c, call);
    } else if !ChangesIds(call) {
      IdsStay(c, call);
    }
    if |t.spaces| > |c.spaces| {
      PathHalves.IdAtMeansOpen(t.spaces, |c.spaces|);
    }
  }

  /** No call closes a path while its ID is spare, unless it is the last space and stays. */
  ghost predicate ClosesUsed(c: Conn, calls: seq<Call>)
    decreases |calls|
  {
    calls == [] ||
    ((calls[0].ClosePath? ==> calls[0].id !in c.spare || |c.spaces| == 1) && ClosesUsed(Apply(c, calls[0]), calls[1..]))
  }

  /** Over every such run every spare path ID has a space and none is closed. */
  lemma {:induction false} RunKeepsSpare(c: Conn, calls: seq<Call>)
    requires SpacesInv(c) && SpareOpen(c) && ClosesUsed(c, calls)
    ensures SpareOpen(Run(c, calls)) && SpacesInv(Run(c, calls))
    ensures forall n :: n in Run(c, calls).spare ==> n !in Run(c, calls).closed
    decreases |calls|
  {
    hide Apply, SpareOpen;
    if calls == [] {
      SpareIsNotClosed(c);
    } else {
      ApplyKeeps(c, calls[0]);
      StepKeepsSpareIff(c, calls[0]);
      RunKeepsSpare(Apply(c, calls[0]), calls[1..]);
    }
  }

  lemma SpareIsNotClosed(c: Conn)
    requires SpacesInv(c) && SpareOpen(c)
    ensures forall n :: n in c.spare ==> n !in c.closed
  {
  }

  lemma FreshSpare(destinationLimit: nat, scid: Cid, path: FourTuple, token: Option<nat>)
    ensures SpacesInv(FreshConn(destinationLimit, scid, path, token)) && SpareOpen(FreshConn(destinationLimit, scid, path, token))
  {
  }

  /** The trouble is reached at once: the peer opens path 1 and it is closed before it was used. */
  lemma ClosedPathStaysSpare(scid: Cid, path: FourTuple, t0: Option<nat>, token: nat)
    ensures var c := Run(FreshConn(2, scid, path, t0), OpenPathOne(token) + [ClosePath(1)]);
            LowestSpare(c.spare) == Some(1) && 1 in c.closed && SpaceOf(c.spaces, 1) == |c.spaces|
  {
    var c0 := FreshConn(2, scid, path, t0);
    RunAppend(c0, OpenPathOne(token), [ClosePath(1)]);
    OpensPathOne(scid, path, t0, token);
    var c := Churning(c0, token, 0);
    assert c.spaces[0].id == 0 && c.spaces[1].id == 1;
    assert SpaceOf(c.spaces, 1) == 1;
    assert FitsOnClose(c.spaces[1].dst);
    ChurningInv(scid, path, t0, token, 0);
    CloseRecordedIff(c, 1);
    SpareUntouched(c, 1);
    assert Run(c, [ClosePath(1)]) == Apply(c, ClosePath(1)) by { assert [ClosePath(1)][1..] == []; }
  }

  lemma ChurningInv(scid: Cid, path: FourTuple, t0: Option<nat>, token: nat, k: byte)
    ensures SpacesInv(Churning(FreshConn(2, scid, path, t0), token, k))
  {
  }

  // -------------------------------------------------------------------------
  // A full retire set
  // -------------------------------------------------------------------------

  /**
   With the retire set full, giving up an active ID fails and loses its number: the ID is neither active nor
   waiting to be announced, and the connection goes on.
   */
  lemma RetirementCanLeak(scid: Cid, path: FourTuple, t0: Option<nat>, token: nat)
    ensures var c := Run(FreshConn(2, scid, path, t0), OpenPathOne(token) + Renewals(token, 1));
            var d := PathSpaces.NewDcid(c, 1, [7], 7, token, 0).0;
            var (t, r) := PathSpaces.RetireDcid(d, 1, 7);
            && SpaceOf(d.spaces, 1) == 1 < |d.spaces| && 7 in Nums(d.spaces[1].dst.dcids.inner)
            && r == Err(IdLimit) && SpaceOf(t.spaces, 1) == 1 < |t.spaces|
            && 7 !in Nums(t.spaces[1].dst.dcids.inner) && 7 !in t.spaces[1].dst.retired
  {
    hide CidSpec.NewDcid, CidSpec.RetireDcid, Churned, Nums, InitialSource, InitialDestination, FreshConn, Renewals, OpenPathOne;
    FreshIsOne(scid, path, t0);
    var c0 := FreshConn(2, scid, path, t0);
    RunAppend(c0, OpenPathOne(token), Renewals(token, 1));
    OpensPathOne(scid, path, t0, token);
    RenewalsRun(c0, token, 1);
    var c := Churning(c0, token, 6);
    assert c.spaces[0].id == 0 && c.spaces[1].id == 1;
    assert SpaceOf(c.spaces, 1) == 1;
    LeakStep(token);
    var d := PathSpaces.NewDcid(c, 1, [7], 7, token, 0).0;
    assert d.spaces[0].id == 0 && d.spaces[1].id == 1 && SpaceOf(d.spaces, 1) == 1;
    var t := PathSpaces.RetireDcid(d, 1, 7).0;
    assert t.spaces[0].id == 0 && t.spaces[1].id == 1 && SpaceOf(t.spaces, 1) == 1;
  }

  lemma FreshIsOne(scid: Cid, path: FourTuple, t0: Option<nat>)
    ensures var c := FreshConn(2, scid, path, t0);
            |c.spaces| == 1 && c.spaces[0].id == 0 && c.closed == [] && !c.zeroLengthDcid
  {
  }

  /** The same destination side with a seventh ID active. */
  function ChurnedPlus(token: nat): Destination {
    Destination(Deque([Entry([6], 6, Some(token), None), Entry([7], 7, Some(token), None)], 2), UpTo(6), 6, 6, 7, false, true)
  }

  lemma StoreSeventh(token: nat)
    ensures CidSpec.NewDcid(Churned(token, 6), [7], 7, token, 0) == (ChurnedPlus(token), Ok(()))
  {
    hide UpTo, RetireAll;
    var es := Churned(token, 6).dcids.inner;
    assert es[0].cid[0] == 6 && IndexOfEither(es, [7], 7) == 1 && IndexOf(es, 7) == 1;
    assert es + [Entry([7], 7, Some(token), None)] == ChurnedPlus(token).dcids.inner;
  }

  lemma LeakStep(token: nat)
    ensures var d := CidSpec.NewDcid(Churned(token, 6), [7], 7, token, 0).0;
            var (t, r) := CidSpec.RetireDcid(d, 7);
            && 7 in Nums(d.dcids.inner) && r == Err(IdLimit) && 7 !in Nums(t.dcids.inner) && 7 !in t.retired
            && DestinationRuns.Leaks(d, 7)
  {
    hide CidSpec.NewDcid;
    StoreSeventh(token);
    var es := ChurnedPlus(token).dcids.inner;
    assert es[0].num == 6 && es[1].num == 7;
    assert IndexOf(es, 7) == 1;
    assert es[..1] + es[2..] == [es[0]];
  }

  /**
   Repeating the very frame that opened the destination side is harmless exactly when the space was
   opened by us: a space the peer opens forgets the stateless reset token of its first ID, so the
   repeated frame looks like a token mismatch.
   */
  lemma RepeatedFirstFrame(limit: nat, ours: bool, scid: Cid, cid: Cid, num: nat, token: nat, floor: nat, path: Option<FourTuple>)
    ensures var first := if ours
                         then CidSpec.NewDcid(InitialDestination(limit, Some(scid), None, path, Some(token)), cid, num, token, floor).0
                         else InitialDestination(limit, None, Some(cid), None, Some(token));
            var (again, r) := CidSpec.NewDcid(first, cid, num, token, floor);
            again == first && (r.Ok? <==> ours) && (!ours ==> r == Err(InvalidFrame))
  {
  }
}
