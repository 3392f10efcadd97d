/**
 The classes of quiche/src/cid.rs: one path space (`PathConnectionIdentifiers`) and the connection's
 collection of spaces (`ConnectionIdentifiers`), updated in place.
 */
module PathCids {
  import opened Common
  import opened CidSpec
  import opened PathSpaces
  import SourceRuns
  import DestinationRuns

  class PathConnectionIdentifiers {
    const pathId: nat
    var dcids: Deque
    var scids: Deque
    var retiredDcids: set<nat>
    const retiredCapacity: nat
    var peerRetirePriorTo: nat
    var largestDcidSeq: nat
    var nextScidSeq: nat
    var retirePriorTo: nat
    var sourceLimit: nat
    var closing: bool
    var dcidInitialized: bool
    var scidInitialized: bool

    /** The source half as a value. */
    ghost function Src(): Source
      reads this
    {
      Source(scids, nextScidSeq, retirePriorTo, sourceLimit, closing, scidInitialized)
    }

    /** The destination half as a value. */
    ghost function Dst(): Destination
      reads this
    {
      Destination(dcids, retiredDcids, retiredCapacity, peerRetirePriorTo, largestDcidSeq, closing, dcidInitialized)
    }

    /** A space opened by us with its first source ID, or by the peer with its first destination ID. */
    constructor (pathId: nat, destinationLimit: nat, sourceLimit: nat, initialScid: Option<Cid>, initialDcid: Option<Cid>,
                 path: Option<FourTuple>, token: Option<nat>)
      requires initialScid.Some? <==> initialDcid.None?
      ensures this.pathId == pathId
      ensures Src() == InitialSource(sourceLimit, initialScid, path, token)
      ensures Dst() == InitialDestination(destinationLimit, initialScid, initialDcid, path, token)
      ensures initialScid.Some? ==> SourceRuns.SourceInv(Src())
      ensures initialDcid.Some? ==> DestinationRuns.DestinationInv(Dst())
    {
      var dlimit := if destinationLimit < 2 then 2 else destinationLimit;
      var slimit := if sourceLimit < 2 then 2 else sourceLimit;
      var stoken := if initialScid.Some? then token else None;
      this.pathId := pathId;
      scids := Deque([Entry(if initialScid.Some? then initialScid.value else [], 0, stoken, path)], 2 * slimit - 1);
      var dtoken := if initialDcid.Some? then stoken else None;
      dcids := Deque([Entry(if initialDcid.Some? then initialDcid.value else [], 0, dtoken, path)], dlimit);
      retiredDcids := {};
      retiredCapacity := dlimit * RETIRED_CONN_ID_LIMIT_MULTIPLIER;
      nextScidSeq := if initialScid.Some? then 1 else 0;
      this.sourceLimit := slimit;
      peerRetirePriorTo, largestDcidSeq, retirePriorTo := 0, 0, 0;
      closing := false;
      dcidInitialized, scidInitialized := initialDcid.Some?, initialScid.Some?;
      new;
      InitialHalves(if initialScid.Some? then sourceLimit else destinationLimit,
                    if initialScid.Some? then initialScid.value else [], if initialDcid.Some? then initialDcid.value else [],
                    path, None, token, None);
    }

    method SetSourceLimit(v: nat)
      modifies this
      ensures Src() == CidSpec.SetSourceLimit(old(Src()), v) && Dst() == old(Dst())
    {
      var v := if v <= USIZE_MAX / 2 then v else USIZE_MAX / 2;
      if v >= 2 {
        sourceLimit := v;
        scids := scids.Resize(2 * v - 1);
      }
    }

    method NewScid(cid: Cid, token: Option<nat>, path: Option<FourTuple>, retireIfNeeded: bool)
      returns (r: Result<(bool, nat)>)
      modifies this
      ensures (Src(), r) == CidSpec.NewScid(old(Src()), cid, token, path, retireIfNeeded) && Dst() == old(Dst())
    {
      hide LowestUsable, IndexOf, IndexOfCid;
      if !scidInitialized {
        scids := scids.ClearAndInsert(Entry(cid, 0, token, path));
        scidInitialized := true;
        return Ok((true, 0));
      }
      if |scids.inner| >= sourceLimit {
        if !retireIfNeeded {
          return Err(IdLimit);
        }
        var low := LowestUsableScidSeq();
        if low.Err? {
          return Err(low.error);
        }
        retirePriorTo := low.value + 1;
      }
      var num := nextScidSeq;
      if token.None? && num != 0 {
        return Err(InvalidState);
      }
      var i := IndexOfCid(scids.inner, cid);
      if i < |scids.inner| {
        if scids.inner[i].token != token {
          return Err(InvalidState);
        }
        return Ok((false, scids.inner[i].num));
      }
      scids :- scids.Insert(Entry(cid, num, token, path));
      nextScidSeq := nextScidSeq + 1;
      return Ok((true, num));
    }

    method LowestUsableScidSeq() returns (r: Result<nat>)
      ensures r == match LowestUsable(scids.inner, retirePriorTo) case None => Err(InvalidState) case Some(n) => Ok(n)
    {
      var best: Option<nat> := None;
      for i := 0 to |scids.inner|
        invariant best.None? ==> forall j :: 0 <= j < i ==> scids.inner[j].num < retirePriorTo
        invariant best.Some? ==> best.value >= retirePriorTo &&
                                 (exists j :: 0 <= j < i && scids.inner[j].num == best.value) &&
                                 (forall j :: 0 <= j < i && scids.inner[j].num >= retirePriorTo ==> best.value <= scids.inner[j].num)
      {
        var n := scids.inner[i].num;
        if n >= retirePriorTo && (best.None? || n < best.value) {
          best := Some(n);
        }
      }
      if best.None? {
        assert Usable(scids.inner, retirePriorTo) == {};
        return Err(InvalidState);
      }
      assert best.value in Usable(scids.inner, retirePriorTo);
      return Ok(best.value);
    }

    method SetInitialDcid(cid: Cid, num: nat, token: Option<nat>, path: Option<FourTuple>)
      modifies this
      ensures Dst() == CidSpec.SetInitialDcid(old(Dst()), cid, num, token, path) && Src() == old(Src())
    {
      dcids := dcids.ClearAndInsert(Entry(cid, num, token, path));
      dcidInitialized := true;
    }

    method MarkRetireDcidSeq(num: nat, retire: bool) returns (r: Result<()>)
      modifies this
      ensures retire ==> (Dst(), r) == MarkRetired(old(Dst()), num)
      ensures !retire ==> r == Ok(()) && Dst() == old(Dst()).(retired := old(Dst()).retired - {num})
      ensures Src() == old(Src())
    {
      if retire {
        if |retiredDcids| >= retiredCapacity {
          return Err(IdLimit);
        }
        retiredDcids := retiredDcids + {num};
      } else {
        retiredDcids := retiredDcids - {num};
      }
      return Ok(());
    }

    /**
     The drain of `new_dcid`: drops the first `k` active entries, feeds them to the retire set and collects
     the network paths they were bound to.
     */
    method Drain(k: nat) returns (room: bool, paths: seq<(nat, FourTuple)>)
      requires k <= |dcids.inner|
      modifies this
      ensures dcids == old(dcids).(inner := old(dcids).inner[k..])
      ensures (retiredDcids, room) == RetireAll(old(retiredDcids), retiredCapacity, old(dcids).inner[..k])
      ensures paths == DrainedPaths(old(retiredDcids), retiredCapacity, old(dcids).inner[..k])
      ensures Src() == old(Src())
      ensures Dst() == old(Dst()).(dcids := dcids, retired := retiredDcids)
    {
      var drained := dcids.inner[..k];
      dcids := dcids.(inner := dcids.inner[k..]);
      room, paths := true, [];
      var i := 0;
      while i < |drained|
        invariant 0 <= i <= |drained| && room
        invariant RetireAll(old(retiredDcids), retiredCapacity, drained) ==
                  RetireAll(retiredDcids, retiredCapacity, drained[i..])
        invariant DrainedPaths(old(retiredDcids), retiredCapacity, drained) ==
                  paths + DrainedPaths(retiredDcids, retiredCapacity, drained[i..])
        invariant dcids == old(dcids).(inner := old(dcids).inner[k..])
        invariant Src() == old(Src()) && Dst() == old(Dst()).(dcids := dcids, retired := retiredDcids)
      {
        paths := paths + PathOf(drained[i]);
        if |retiredDcids| >= retiredCapacity {
          room := false;
          return;
        }
        assert drained[i..][1..] == drained[i + 1..];
        retiredDcids := retiredDcids + {drained[i].num};
        i := i + 1;
      }
    }

    method NewDcid(cid: Cid, num: nat, token: nat, retirePriorTo: nat)
      returns (r: Result<()>, paths: seq<(nat, FourTuple)>)
      modifies this
      ensures (Dst(), r) == CidSpec.NewDcid(old(Dst()), cid, num, token, retirePriorTo) && Src() == old(Src())
      ensures paths == RetiredPaths(old(Dst()), cid, num, retirePriorTo)
    {
      hide RetireAll, DrainedPaths, PartitionPoint;
      paths := [];
      if !dcidInitialized {
        SetInitialDcid(cid, num, Some(token), None);
        return Ok(()), paths;
      }
      var i := IndexOfEither(dcids.inner, cid, num);
      if i < |dcids.inner| {
        var e := dcids.inner[i];
        if e.cid != cid || e.num != num || e.token != Some(token) {
          return Err(InvalidFrame), paths;
        }
        return Ok(()), paths;
      }
      if retirePriorTo > num {
        return Err(InvalidFrame), paths;
      }
      if num < peerRetirePriorTo {
        r := MarkRetireDcidSeq(num, true);
        return;
      }
      if num > largestDcidSeq {
        largestDcidSeq := num;
      }
      var room := true;
      if retirePriorTo > peerRetirePriorTo {
        room, paths := Drain(PartitionPoint(dcids.inner, retirePriorTo));
        peerRetirePriorTo := retirePriorTo;
      }
      var inserted := dcids.Insert(Entry(cid, num, Some(token), None));
      if inserted.Err? {
        return Err(inserted.error), paths;
      }
      dcids := inserted.value;
      r := if room then Ok(()) else Err(IdLimit);
    }

    method RetireScid(num: nat, pktDcid: Cid) returns (r: Result<Option<Entry>>)
      modifies this
      ensures (Src(), r) == CidSpec.RetireScid(old(Src()), num, pktDcid) && Dst() == old(Dst())
    {
      if num >= nextScidSeq {
        return Err(InvalidState);
      }
      var removed :- scids.Remove(num, closing);
      scids := removed.0;
      if removed.1.None? {
        return Ok(None);
      }
      if removed.1.value.cid == pktDcid {
        return Err(InvalidState);
      }
      var low := LowestUsableScidSeq();
      if low.Err? {
        return Err(low.error);
      }
      retirePriorTo := low.value;
      return Ok(removed.1);
    }

    method RetireDcid(num: nat) returns (r: Result<Option<FourTuple>>)
      modifies this
      ensures (Dst(), r) == CidSpec.RetireDcid(old(Dst()), num) && Src() == old(Src())
    {
      var removed :- dcids.Remove(num, closing);
      dcids := removed.0;
      if removed.1.None? {
        return if closing then Ok(None) else Err(InvalidState);
      }
      var marked := MarkRetireDcidSeq(num, true);
      return if marked.Err? then Err(marked.error) else Ok(removed.1.value.path);
    }
  }

  class ConnectionIdentifiers {
    var pcids: seq<PathConnectionIdentifiers>
    var pcidsCapacity: nat
    var advertiseNewScidSeqs: seq<(nat, nat)>
    var retiredScids: seq<(nat, Cid)>
    var sourceLimit: nat
    const destinationLimit: nat
    var closedPathIds: seq<nat>
    var localMaxPathId: nat
    var remoteMaxPathId: nat
    const zeroLengthScid: bool
    var zeroLengthDcid: bool
    /** A heap in the program; only its contents matter here. */
    var sparePathIds: multiset<nat>
    var largestPathId: nat
    var advertiseLocalMaxPathId: bool

    /** The spaces as values, in collection order. */
    ghost function SpacesView(): (ss: seq<Space>)
      reads this, pcids
      ensures |ss| == |pcids|
      ensures forall i :: 0 <= i < |ss| ==> ss[i] == Space(pcids[i].pathId, pcids[i].Src(), pcids[i].Dst())
    {
      seq(|pcids|, i requires 0 <= i < |pcids| reads this, pcids =>
        Space(pcids[i].pathId, pcids[i].Src(), pcids[i].Dst()))
    }

    ghost function View(): Conn
      reads this, pcids
    {
      Conn(SpacesView(), pcidsCapacity, closedPathIds, localMaxPathId, remoteMaxPathId, sourceLimit,
           destinationLimit, zeroLengthScid, zeroLengthDcid, advertiseNewScidSeqs, retiredScids, sparePathIds,
           largestPathId, advertiseLocalMaxPathId)
    }

    /** No path ID has two spaces, so no space object occurs twice. */
    ghost predicate Valid()
      reads this, pcids
    {
      forall i, j :: 0 <= i < j < |pcids| ==> pcids[i].pathId != pcids[j].pathId
    }

    /** A connection starts with the space of path 0, its initial source ID, and room for that space only. */
    constructor (destinationLimit: nat, initialScid: Cid, path: FourTuple, token: Option<nat>)
      ensures Valid() && fresh(pcids) && SpacesInv(View())
      ensures View() == FreshConn(destinationLimit, initialScid, path, token)
    {
      var limit := if destinationLimit < 2 then 2 else destinationLimit;
      var p := new PathConnectionIdentifiers(0, limit, 2, Some(initialScid), None, Some(path), token);
      pcids, pcidsCapacity := [p], 1;
      advertiseNewScidSeqs, retiredScids, closedPathIds := [], [], [];
      sourceLimit := 2;
      this.destinationLimit := limit;
      localMaxPathId, remoteMaxPathId := 0, 0;
      zeroLengthScid, zeroLengthDcid := initialScid == [], false;
      sparePathIds, largestPathId, advertiseLocalMaxPathId := multiset{}, 0, false;
    }

    /** The position of the space of `id`, or the number of spaces. */
    method Find(id: nat) returns (i: nat)
      ensures i == SpaceOf(SpacesView(), id)
    {
      i := 0;
      while i < |pcids| && pcids[i].pathId != id
        invariant 0 <= i <= |pcids|
        invariant forall j :: 0 <= j < i ==> pcids[j].pathId != id
      {
        i := i + 1;
      }
      ghost var k := SpaceOf(SpacesView(), id);
      assert k < |pcids| ==> pcids[k].pathId == id;
      assert i < |pcids| ==> SpacesView()[i].id == id;
    }

    method MarkAdvertiseNewScidSeq(id: nat, num: nat, advertise: bool)
      modifies this`advertiseNewScidSeqs
      ensures View() == old(View()).(advertise := MarkAdvertise(old(advertiseNewScidSeqs), (id, num), advertise))
    {
      advertiseNewScidSeqs := MarkAdvertise(advertiseNewScidSeqs, (id, num), advertise);
    }

    /** The largest allowed path ID grew: make room for its space. */
    method MaybeResize()
      modifies this`pcidsCapacity
      ensures View() == Resized(old(View()))
    {
      var most := if localMaxPathId <= remoteMaxPathId then localMaxPathId else remoteMaxPathId;
      if 1 + most > pcidsCapacity {
        pcidsCapacity := 1 + most;
      }
    }

    method SetLocalMaxPathId(v: nat, advertise: bool)
      modifies this
      ensures View() == SetLocalMax(old(View()), v, advertise) && pcids == old(pcids)
    {
      if v > localMaxPathId {
        localMaxPathId := v;
        if advertise {
          advertiseLocalMaxPathId := true;
        }
        assert SpacesView() == old(SpacesView());
        MaybeResize();
      }
    }

    method SetRemoteMaxPathId(v: nat)
      modifies this
      ensures View() == SetRemoteMax(old(View()), v) && pcids == old(pcids)
    {
      if v > remoteMaxPathId {
        remoteMaxPathId := v;
        assert SpacesView() == old(SpacesView());
        MaybeResize();
      }
    }

    /** Inserts the space `p` of an absent path ID, if that ID is allowed and there is room. */
    method Insert(p: PathConnectionIdentifiers) returns (r: Result<()>)
      requires Valid() && p !in pcids && SpaceOf(SpacesView(), p.pathId) == |pcids|
      modifies this`pcids, this`sparePathIds, this`largestPathId
      ensures var o := OpenSpace(old(View()), Space(p.pathId, p.Src(), p.Dst()));
              match o case Ok(c) => r == Ok(()) && View() == c && pcids == old(pcids) + [p]
                      case Err(e) => r == Err(e) && View() == old(View()) && pcids == old(pcids)
      ensures Valid()
    {
      var most := if localMaxPathId <= remoteMaxPathId then localMaxPathId else remoteMaxPathId;
      if p.pathId > most || p.pathId in closedPathIds {
        return Err(OutOfPathId);
      }
      if |pcids| >= pcidsCapacity {
        return Err(IdLimit);
      }
      ghost var before := SpacesView();
      assert forall i :: 0 <= i < |pcids| ==> before[i].id == pcids[i].pathId;
      pcids := pcids + [p];
      sparePathIds := sparePathIds + multiset{p.pathId};
      largestPathId := if p.pathId > largestPathId then p.pathId else largestPathId;
      assert SpacesView() == before + [Space(p.pathId, p.Src(), p.Dst())];
      return Ok(());
    }

    /** Issues a source ID on an existing space. */
    method IssueOn(i: nat, cid: Cid, token: Option<nat>, advertise: bool, path: Option<FourTuple>, retireIfNeeded: bool)
      returns (r: Result<nat>)
      requires Valid() && i < |pcids|
      modifies this, pcids
      ensures Valid()
      ensures (View(), r) == PathSpaces.IssueOn(old(View()), i, cid, token, advertise, path, retireIfNeeded)
    {
      var issued := pcids[i].NewScid(cid, token, path, retireIfNeeded);
      assert SpacesView() == old(SpacesView())[i := old(SpacesView()[i]).(src := pcids[i].Src())];
      if issued.Err? {
        return Err(issued.error);
      }
      if issued.value.0 {
        MarkAdvertiseNewScidSeq(pcids[i].pathId, issued.value.1, advertise);
      }
      return Ok(issued.value.1);
    }

    method NewScid(id: nat, cid: Cid, token: Option<nat>, advertise: bool, path: Option<FourTuple>, retireIfNeeded: bool)
      returns (r: Result<nat>)
      requires Valid()
      modifies this, pcids
      ensures Valid()
      ensures (View(), r) == PathSpaces.NewScid(old(View()), id, cid, token, advertise, path, retireIfNeeded)
    {
      if zeroLengthScid {
        return Err(InvalidState);
      }
      if token.None? && id != 0 {
        return Err(InvalidState);
      }
      var i := Find(id);
      if i < |pcids| {
        r := IssueOn(i, cid, token, advertise, path, retireIfNeeded);
        return;
      }
      r := OpenWithScid(id, cid, token, advertise, path);
    }

    /** Opens the space of an absent path ID with its first source ID. */
    method OpenWithScid(id: nat, cid: Cid, token: Option<nat>, advertise: bool, path: Option<FourTuple>)
      returns (r: Result<nat>)
      requires Valid() && SpaceOf(SpacesView(), id) == |pcids|
      modifies this
      ensures Valid()
      ensures (View(), r) == PathSpaces.OpenWithScid(old(View()), id, cid, token, advertise, path)
    {
      var p := new PathConnectionIdentifiers(id, destinationLimit, sourceLimit, Some(cid), None, path, token);
      assert SpacesView() == old(SpacesView());
      var inserted := Insert(p);
      if inserted.Err? {
        return Err(inserted.error);
      }
      MarkAdvertiseNewScidSeq(id, 0, advertise);
      return Ok(0);
    }

    method NewDcid(id: nat, cid: Cid, num: nat, token: nat, retirePriorTo: nat)
      returns (r: Result<()>, paths: seq<(nat, FourTuple)>)
      requires Valid()
      modifies this, pcids
      ensures Valid()
      ensures (View(), r) == PathSpaces.NewDcid(old(View()), id, cid, num, token, retirePriorTo)
      ensures paths == PathSpaces.LostPaths(old(View()), id, cid, num, retirePriorTo)
    {
      hide CidSpec.NewDcid, RetiredPaths, SpaceOf;
      paths := [];
      if zeroLengthDcid {
        return Err(InvalidState), paths;
      }
      var i := Find(id);
      if i < |pcids| {
        ghost var before := SpacesView();
        r, paths := pcids[i].NewDcid(cid, num, token, retirePriorTo);
        assert SpacesView() == before[i := before[i].(dst := pcids[i].Dst())];
        return;
      }
      var p := new PathConnectionIdentifiers(id, destinationLimit, sourceLimit, None, Some(cid), None, Some(token));
      r := Insert(p);
    }

    method LowestSparePathId() returns (id: Option<nat>)
      ensures id == LowestSpare(sparePathIds)
    {
      return LowestSpare(sparePathIds);
    }

    /** Takes one occurrence of the lowest spare path ID off the heap. */
    method ConsumeLowestSparePathId()
      modifies this`sparePathIds
      ensures View() == ConsumeSpare(old(View()))
    {
      var low := LowestSparePathId();
      if low.Some? {
        sparePathIds := sparePathIds - multiset{low.value};
      }
    }

    /** Takes the space at position `i` out of the collection. */
    method TakeSpace(i: nat) returns (p: PathConnectionIdentifiers)
      requires Valid() && i < |pcids|
      modifies this`pcids
      ensures Valid() && p == old(pcids[i]) && p !in pcids
      ensures SpacesView() == old(SpacesView())[..i] + old(SpacesView())[i + 1..]
      ensures View() == old(View()).(spaces := SpacesView())
    {
      p := pcids[i];
      pcids := pcids[..i] + pcids[i + 1..];
    }

    method RemovePathId(id: nat) returns (r: Result<()>)
      requires Valid()
      modifies this, pcids
      ensures Valid()
      ensures (View(), r) == PathSpaces.RemovePathId(old(View()), id)
    {
      hide RetireAll, Farewells, SpaceOf;
      if id in closedPathIds {
        return Ok(());
      }
      if id > (if localMaxPathId <= remoteMaxPathId then localMaxPathId else remoteMaxPathId) {
        return Err(PathIdViolation);
      }
      if |pcids| <= 1 {
        return Err(OutOfIdentifiers);
      }
      var i := Find(id);
      if i < |pcids| {
        var room := CloseSpace(id, i);
        if !room {
          return Err(IdLimit);
        }
      }
      ghost var rest := SpacesView();
      closedPathIds := closedPathIds + [id];
      assert SpacesView() == rest;
      return Ok(());
    }

    /** Takes a space out, gives up its destination IDs and tells the application about its source IDs. */
    method CloseSpace(id: nat, i: nat) returns (room: bool)
      requires Valid() && i < |pcids|
      modifies this, pcids
      ensures Valid()
      ensures var s := old(SpacesView()[i]);
              && room == RetireAll(s.dst.retired, s.dst.retiredCapacity, s.dst.dcids.inner).1
              && View() == old(View()).(
                   spaces := old(SpacesView())[..i] + old(SpacesView())[i + 1..],
                   retiredScids := if room then old(retiredScids) + Farewells(id, s.src.scids.inner) else old(retiredScids))
    {
      var p := TakeSpace(i);
      ghost var rest := SpacesView();
      ghost var active := p.dcids.inner;
      assert active[..|active|] == active;
      var unreported;
      room, unreported := p.Drain(|p.dcids.inner|);
      assert SpacesView() == rest;
      if room {
        retiredScids := retiredScids + Farewells(id, p.scids.inner);
      }
      assert SpacesView() == rest;
    }

    /** Our peer's limit on source IDs goes to every space. */
    method SetSourceConnIdLimit(v: nat)
      requires Valid()
      modifies this, pcids
      ensures Valid() && pcids == old(pcids)
      ensures View() == LimitSource(old(View()), v)
    {
      var v := if v <= USIZE_MAX / 2 then v else USIZE_MAX / 2;
      if v >= 2 {
        LimitSpaces(v);
        ghost var limited := SpacesView();
        sourceLimit := v;
        assert SpacesView() == limited == LimitSource(old(View()), v).spaces;
      }
    }

    method LimitSpaces(v: nat)
      requires Valid()
      modifies pcids
      ensures Valid() && |SpacesView()| == |old(SpacesView())|
      ensures forall j :: 0 <= j < |pcids| ==>
                SpacesView()[j] == old(SpacesView()[j]).(src := CidSpec.SetSourceLimit(old(SpacesView()[j]).src, v))
    {
      hide CidSpec.SetSourceLimit;
      ghost var before := SpacesView();
      var i := 0;
      while i < |pcids|
        invariant 0 <= i <= |pcids|
        invariant forall j :: 0 <= j < i ==>
                    SpacesView()[j] == before[j].(src := CidSpec.SetSourceLimit(before[j].src, v))
        invariant forall j :: i <= j < |pcids| ==> SpacesView()[j] == before[j]
      {
        pcids[i].SetSourceLimit(v);
        i := i + 1;
      }
    }

    /** A request to retire one of our IDs; the application is told which one went. */
    method RetireScid(id: nat, num: nat, pktDcid: Cid) returns (r: Result<Option<FourTuple>>)
      requires Valid()
      modifies this, pcids
      ensures Valid()
      ensures (View(), r) == PathSpaces.RetireScid(old(View()), id, num, pktDcid)
    {
      hide CidSpec.RetireScid, SpaceOf;
      var i := Find(id);
      if i == |pcids| {
        return Ok(None);
      }
      ghost var before := SpacesView();
      var retired := pcids[i].RetireScid(num, pktDcid);
      assert SpacesView() == before[i := before[i].(src := pcids[i].Src())];
      match retired {
        case Err(e) => return Err(e);
        case Ok(None) => return Ok(None);
        case Ok(Some(e)) =>
          retiredScids := retiredScids + [(id, e.cid)];
          assert SpacesView() == before[i := before[i].(src := pcids[i].Src())];
          return Ok(e.path);
      }
    }

    method RetireDcid(id: nat, num: nat) returns (r: Result<Option<FourTuple>>)
      requires Valid()
      modifies this, pcids
      ensures Valid()
      ensures (View(), r) == PathSpaces.RetireDcid(old(View()), id, num)
    {
      hide CidSpec.RetireDcid, SpaceOf;
      if zeroLengthDcid {
        return Err(InvalidState);
      }
      if id in closedPathIds {
        return Ok(None);
      }
      var i := Find(id);
      if i == |pcids| {
        return Err(OutOfPathId);
      }
      ghost var before := SpacesView();
      r := pcids[i].RetireDcid(num);
      assert SpacesView() == before[i := before[i].(dst := pcids[i].Dst())];
    }

    method MarkRetireDcidSeq(id: nat, num: nat, retire: bool) returns (r: Result<()>)
      requires Valid()
      modifies this, pcids
      ensures Valid()
      ensures (View(), r) == PathSpaces.MarkRetireDcidSeq(old(View()), id, num, retire)
    {
      hide SpaceOf;
      var i := Find(id);
      if i == |pcids| {
        return Err(UnavailablePath);
      }
      ghost var before := SpacesView();
      r := pcids[i].MarkRetireDcidSeq(num, retire);
      assert SpacesView() == before[i := before[i].(dst := pcids[i].Dst())];
    }

    /** From now on the space may be emptied. */
    method ClosingPathId(id: nat)
      requires Valid()
      modifies this, pcids
      ensures Valid()
      ensures View() == PathSpaces.ClosingPathId(old(View()), id)
    {
      hide SpaceOf;
      var i := Find(id);
      if i < |pcids| {
        ghost var before := SpacesView();
        pcids[i].closing := true;
        assert SpacesView() == before[i := Closing(before[i])];
      }
    }

    /** The peer's first ID, learnt during the handshake. */
    method SetInitialDcid(cid: Cid, token: Option<nat>, path: Option<FourTuple>)
      requires Valid()
      modifies this, pcids
      ensures Valid()
      ensures View() == LearnDcid(old(View()), cid, token, path)
    {
      LearnOnPathZero(cid, token, path);
      ghost var learnt := SpacesView();
      zeroLengthDcid := cid == [];
      assert SpacesView() == learnt;
    }

    method LearnOnPathZero(cid: Cid, token: Option<nat>, path: Option<FourTuple>)
      requires Valid()
      modifies pcids
      ensures Valid()
      ensures View() == LearnDcid(old(View()), cid, token, path).(zeroLengthDcid := zeroLengthDcid)
    {
      hide CidSpec.SetInitialDcid, SpaceOf;
      var i := Find(0);
      if i < |pcids| {
        ghost var before := SpacesView();
        pcids[i].SetInitialDcid(cid, 0, token, path);
        assert SpacesView() == before[i := before[i].(dst := pcids[i].Dst())];
      }
    }
  }
}
