/**
 The connection's path-ID spaces as a value (`ConnectionIdentifiers`, quiche/src/cid.rs): which path
 IDs have a space, which are closed for good, and why the capacity of the collection is never hit.
 */
module PathSpaces {
  import opened Common
  import opened CidSpec
  import opened SourceRuns
  import DestinationRuns

  datatype Space = Space(id: nat, src: Source, dst: Destination)

  datatype Conn = Conn(
    spaces: seq<Space>, capacity: nat, closed: seq<nat>, localMax: nat, remoteMax: nat,
    sourceLimit: nat, destinationLimit: nat, zeroLengthScid: bool, zeroLengthDcid: bool,
    advertise: seq<(nat, nat)>, retiredScids: seq<(nat, Cid)>, spare: multiset<nat>, largest: nat, advertiseMax: bool)

  /** The source half `new_with_path_id` builds. */
  function InitialSource(limit: nat, scid: Option<Cid>, path: Option<FourTuple>, token: Option<nat>): Source {
    var limit := if limit < 2 then 2 else limit;
    var e := if scid.Some? then Entry(scid.value, 0, token, path) else Entry([], 0, None, path);
    Source(Deque([e], 2 * limit - 1), if scid.Some? then 1 else 0, 0, limit, false, scid.Some?)
  }

  /** The destination half `new_with_path_id` builds; a destination ID never gets its token. */
  function InitialDestination(limit: nat, scid: Option<Cid>, dcid: Option<Cid>, path: Option<FourTuple>,
                              token: Option<nat>): Destination
  {
    var limit := if limit < 2 then 2 else limit;
    var kept := if scid.Some? && dcid.Some? then token else None;
    Destination(Deque([Entry(if dcid.Some? then dcid.value else [], 0, kept, path)], limit), {},
                limit * RETIRED_CONN_ID_LIMIT_MULTIPLIER, 0, 0, false, dcid.Some?)
  }

  /**
   The halves `new_with_path_id` builds are the ones the run theorems start from: a space with a source ID
   satisfies the source invariant, and one that has learnt its first destination ID the destination's.
   */
  lemma InitialHalves(limit: nat, scid: Cid, dcid: Cid, path: Option<FourTuple>, peerPath: Option<FourTuple>,
                      token: Option<nat>, peerToken: Option<nat>)
    ensures InitialSource(limit, Some(scid), path, token) == FreshSource(scid, token, path, limit)
    ensures SourceInv(InitialSource(limit, Some(scid), path, token))
    ensures InitialSource(limit, None, None, token) == PeerCreatedSource(limit)
    ensures SetInitialDcid(InitialDestination(limit, Some(scid), None, path, token), dcid, 0, peerToken, peerPath)
            == DestinationRuns.FreshDestination(dcid, peerToken, peerPath, limit)
    ensures InitialDestination(limit, None, Some(dcid), path, token)
            == DestinationRuns.FreshDestination(dcid, None, path, limit)
    ensures DestinationRuns.DestinationInv(InitialDestination(limit, None, Some(dcid), path, token))
  {
    hide SourceInv, DestinationRuns.DestinationInv;
    var s, d := FreshSource(scid, token, path, limit), DestinationRuns.FreshDestination(dcid, None, path, limit);
  }

  /** The largest path ID both sides allow. */
  function MaxPathId(c: Conn): nat {
    if c.localMax <= c.remoteMax then c.localMax else c.remoteMax
  }

  /** Index of the space with path ID `id`, or the number of spaces. */
  function SpaceOf(ss: seq<Space>, id: nat): (i: nat)
    ensures i <= |ss|
    ensures i < |ss| ==> ss[i].id == id
    ensures forall j :: 0 <= j < i ==> ss[j].id != id
  {
    if ss == [] || ss[0].id == id then 0 else 1 + SpaceOf(ss[1..], id)
  }

  function Resized(c: Conn): Conn {
    if 1 + MaxPathId(c) > c.capacity then c.(capacity := 1 + MaxPathId(c)) else c
  }

  function SetLocalMax(c: Conn, v: nat, advertise: bool): Conn {
    if v > c.localMax then Resized(c.(localMax := v, advertiseMax := c.advertiseMax || advertise)) else c
  }

  function SetRemoteMax(c: Conn, v: nat): Conn {
    if v > c.remoteMax then Resized(c.(remoteMax := v)) else c
  }

  /** Creating the space of an absent path ID. */
  function OpenSpace(c: Conn, s: Space): Result<Conn> {
    if s.id > MaxPathId(c) then Err(OutOfPathId)
    else if s.id in c.closed then Err(OutOfPathId)
    else if |c.spaces| >= c.capacity then Err(IdLimit)
    else Ok(c.(spaces := c.spaces + [s], spare := c.spare + multiset{s.id},
               largest := if s.id > c.largest then s.id else c.largest))
  }

  /** A connection as `new` builds it: the space of path 0 with its initial source ID. */
  function FreshConn(destinationLimit: nat, scid: Cid, path: FourTuple, token: Option<nat>): Conn {
    var limit := if destinationLimit < 2 then 2 else destinationLimit;
    Conn([Space(0, InitialSource(2, Some(scid), Some(path), token),
                InitialDestination(limit, Some(scid), None, Some(path), token))],
         1, [], 0, 0, 2, limit, scid == [], false, [], [], multiset{}, 0, false)
  }

  /** The path ID to use next, if any. */
  function LowestSpare(spare: multiset<nat>): (id: Option<nat>)
    ensures id.None? <==> spare == multiset{}
    ensures id.Some? ==> id.value in spare && forall n :: n in spare ==> id.value <= n
  {
    var ids := set n | n in spare;
    if ids == {} then
      assert forall n :: n in spare ==> n in ids;
      None
    else
      LeastExists(ids);
      var m :| m in ids && forall n :: n in ids ==> m <= n;
      assert m in spare && forall n :: n in spare ==> n in ids;
      Some(m)
  }

  function ConsumeSpare(c: Conn): Conn {
    match LowestSpare(c.spare) case None => c case Some(m) => c.(spare := c.spare - multiset{m})
  }

  /** `mark_advertise_new_scid_seq`. */
  function MarkAdvertise(q: seq<(nat, nat)>, x: (nat, nat), advertise: bool): seq<(nat, nat)> {
    if advertise then (if x in q then q else q + [x]) else Without(q, x)
  }

  /** The queue without its first occurrence of `x`. */
  function Without(q: seq<(nat, nat)>, x: (nat, nat)): seq<(nat, nat)> {
    if q == [] then [] else if q[0] == x then q[1..] else [q[0]] + Without(q[1..], x)
  }

  function NewScid(c: Conn, id: nat, cid: Cid, token: Option<nat>, advertise: bool, path: Option<FourTuple>,
                   retireIfNeeded: bool): (Conn, Result<nat>)
  {
    if c.zeroLengthScid then (c, Err(InvalidState))
    else if token.None? && id != 0 then (c, Err(InvalidState))
    else
      var i := SpaceOf(c.spaces, id);
      if i < |c.spaces| then IssueOn(c, i, cid, token, advertise, path, retireIfNeeded)
      else OpenWithScid(c, id, cid, token, advertise, path)
  }

  /** A source ID issued on the space at position `i`. */
  function IssueOn(c: Conn, i: nat, cid: Cid, token: Option<nat>, advertise: bool, path: Option<FourTuple>,
                   retireIfNeeded: bool): (Conn, Result<nat>)
    requires i < |c.spaces|
  {
    var (s, r) := CidSpec.NewScid(c.spaces[i].src, cid, token, path, retireIfNeeded);
    var t := c.(spaces := c.spaces[i := c.spaces[i].(src := s)]);
    if r.Err? then (t, Err(r.error))
    else if r.value.0 then
      (t.(advertise := MarkAdvertise(t.advertise, (t.spaces[i].id, r.value.1), advertise)), Ok(r.value.1))
    else (t, Ok(r.value.1))
  }

  /** A source ID that opens the space of an absent path ID. */
  function OpenWithScid(c: Conn, id: nat, cid: Cid, token: Option<nat>, advertise: bool, path: Option<FourTuple>):
    (Conn, Result<nat>)
  {
    match OpenSpace(c, Space(id, InitialSource(c.sourceLimit, Some(cid), path, token),
                             InitialDestination(c.destinationLimit, Some(cid), None, path, token)))
    case Err(e) => (c, Err(e))
    case Ok(t) => (t.(advertise := MarkAdvertise(t.advertise, (id, 0), advertise)), Ok(0))
  }

  function NewDcid(c: Conn, id: nat, cid: Cid, num: nat, token: nat, retirePriorTo: nat): (Conn, Result<()>) {
    if c.zeroLengthDcid then (c, Err(InvalidState))
    else
      var i := SpaceOf(c.spaces, id);
      if i < |c.spaces| then
        var (d, r) := CidSpec.NewDcid(c.spaces[i].dst, cid, num, token, retirePriorTo);
        (c.(spaces := c.spaces[i := c.spaces[i].(dst := d)]), r)
      else
        match OpenSpace(c, Space(id, InitialSource(c.sourceLimit, None, None, Some(token)),
                                 InitialDestination(c.destinationLimit, None, Some(cid), None, Some(token))))
        case Err(e) => (c, Err(e))
        case Ok(t) => (t, Ok(()))
  }

  /** The network paths a frame for path `id` reports as having lost their destination ID. */
  function LostPaths(c: Conn, id: nat, cid: Cid, num: nat, retirePriorTo: nat): seq<(nat, FourTuple)> {
    var i := SpaceOf(c.spaces, id);
    if c.zeroLengthDcid || i == |c.spaces| then [] else RetiredPaths(c.spaces[i].dst, cid, num, retirePriorTo)
  }

  /** The queue entries that tell the application which source IDs went away with a path. */
  function Farewells(id: nat, es: seq<Entry>): seq<(nat, Cid)> {
    seq(|es|, i requires 0 <= i < |es| => (id, es[i].cid))
  }

  /** `remove_path_id`: the last space cannot go, and a full retire set interrupts the removal. */
  function RemovePathId(c: Conn, id: nat): (Conn, Result<()>) {
    if id in c.closed then (c, Ok(()))
    else if id > MaxPathId(c) then (c, Err(PathIdViolation))
    else if |c.spaces| <= 1 then (c, Err(OutOfIdentifiers))
    else
      var i := SpaceOf(c.spaces, id);
      if i == |c.spaces| then (c.(closed := c.closed + [id]), Ok(()))
      else
        var s := c.spaces[i];
        var t := c.(spaces := c.spaces[..i] + c.spaces[i + 1..]);
        if !RetireAll(s.dst.retired, s.dst.retiredCapacity, s.dst.dcids.inner).1 then (t, Err(IdLimit))
        else (t.(closed := c.closed + [id], retiredScids := c.retiredScids + Farewells(id, s.src.scids.inner)), Ok(()))
  }

  /** `retire_scid`: a request for a path without a space is ignored. */
  function RetireScid(c: Conn, id: nat, num: nat, pktDcid: Cid): (Conn, Result<Option<FourTuple>>) {
    var i := SpaceOf(c.spaces, id);
    if i == |c.spaces| then (c, Ok(None))
    else
      var (s, r) := CidSpec.RetireScid(c.spaces[i].src, num, pktDcid);
      var t := c.(spaces := c.spaces[i := c.spaces[i].(src := s)]);
      match r
      case Err(e) => (t, Err(e))
      case Ok(None) => (t, Ok(None))
      case Ok(Some(e)) => (t.(retiredScids := t.retiredScids + [(id, e.cid)]), Ok(e.path))
  }

  function RetireDcid(c: Conn, id: nat, num: nat): (Conn, Result<Option<FourTuple>>) {
    if c.zeroLengthDcid then (c, Err(InvalidState))
    else if id in c.closed then (c, Ok(None))
    else
      var i := SpaceOf(c.spaces, id);
      if i == |c.spaces| then (c, Err(OutOfPathId))
      else
        var (d, r) := CidSpec.RetireDcid(c.spaces[i].dst, num);
        (c.(spaces := c.spaces[i := c.spaces[i].(dst := d)]), r)
  }

  /** `mark_retire_dcid_seq` on one space: back into the retire set, or out of it. */
  function Marked(d: Destination, num: nat, retire: bool): (Destination, Result<()>) {
    if retire then MarkRetired(d, num) else (d.(retired := d.retired - {num}), Ok(()))
  }

  function MarkRetireDcidSeq(c: Conn, id: nat, num: nat, retire: bool): (Conn, Result<()>) {
    var i := SpaceOf(c.spaces, id);
    if i == |c.spaces| then (c, Err(UnavailablePath))
    else
      var (d, r) := Marked(c.spaces[i].dst, num, retire);
      (c.(spaces := c.spaces[i := c.spaces[i].(dst := d)]), r)
  }

  /** A space that may be emptied. */
  function Closing(s: Space): Space {
    s.(src := s.src.(closing := true), dst := s.dst.(closing := true))
  }

  function ClosingPathId(c: Conn, id: nat): Conn {
    var i := SpaceOf(c.spaces, id);
    if i == |c.spaces| then c else c.(spaces := c.spaces[i := Closing(c.spaces[i])])
  }

  /** `set_initial_dcid`: the peer's first ID, learnt during the handshake, belongs to path 0. */
  function LearnDcid(c: Conn, cid: Cid, token: Option<nat>, path: Option<FourTuple>): Conn {
    var i := SpaceOf(c.spaces, 0);
    var t := c.(zeroLengthDcid := cid == []);
    if i == |c.spaces| then t
    else t.(spaces := c.spaces[i := c.spaces[i].(dst := SetInitialDcid(c.spaces[i].dst, cid, 0, token, path))])
  }

  /** Our peer's limit on source IDs, for every space and for those to come. */
  function LimitSource(c: Conn, v: nat): Conn {
    var v := if v <= USIZE_MAX / 2 then v else USIZE_MAX / 2;
    if v < 2 then c
    else
      c.(sourceLimit := v,
         spaces := seq(|c.spaces|, i requires 0 <= i < |c.spaces| =>
                                     c.spaces[i].(src := SetSourceLimit(c.spaces[i].src, v))))
  }

  // -------------------------------------------------------------------------
  // The invariant and the pigeonhole
  // -------------------------------------------------------------------------

  function Ids(ss: seq<Space>): set<nat> {
    set i | 0 <= i < |ss| :: ss[i].id
  }

  ghost predicate DistinctIds(ss: seq<Space>) {
    forall i, j :: 0 <= i < j < |ss| ==> ss[i].id != ss[j].id
  }

  /** Distinct path IDs, allowed, not closed, in a collection sized for all allowed IDs. */
  ghost predicate SpacesInv(c: Conn) {
    && |c.spaces| >= 1
    && DistinctIds(c.spaces)
    && c.capacity == 1 + MaxPathId(c)
    && (forall i :: 0 <= i < |c.spaces| ==> c.spaces[i].id <= c.largest && c.spaces[i].id !in c.closed)
    && c.largest <= MaxPathId(c) && (forall n :: n in c.spare ==> n <= c.largest)
  }

  /** A set of naturals up to `m` has at most `m + 1` members. */
  lemma {:induction false} UpToSize(s: set<nat>, m: nat)
    requires forall n :: n in s ==> n <= m
    ensures |s| <= m + 1
  {
    if m == 0 {
      SubsetSize(s, {0});
    } else {
      UpToSize(s - {m}, m - 1);
      SubsetSize(s, (s - {m}) + {m});
    }
  }

  lemma {:induction false} IdsSize(ss: seq<Space>)
    requires DistinctIds(ss)
    ensures |Ids(ss)| == |ss|
  {
    if ss != [] {
      var last := |ss| - 1;
      IdsSize(ss[..last]);
      assert Ids(ss) == Ids(ss[..last]) + {ss[last].id} by {
        assert forall i :: 0 <= i < last ==> ss[..last][i] == ss[i];
      }
      assert ss[last].id !in Ids(ss[..last]);
    }
  }

  /** Pigeonhole: an allowed path ID that is absent and not closed always finds room for its space. */
  lemma OpenSpaceSucceedsIff(c: Conn, s: Space)
    requires SpacesInv(c) && SpaceOf(c.spaces, s.id) == |c.spaces|
    ensures OpenSpace(c, s).Ok? <==> s.id <= MaxPathId(c) && s.id !in c.closed
    ensures OpenSpace(c, s) != Err(IdLimit)
  {
    if s.id <= MaxPathId(c) && s.id !in c.closed {
      IdsSize(c.spaces);
      assert s.id !in Ids(c.spaces);
      UpToSize(Ids(c.spaces) + {s.id}, MaxPathId(c));
    }
  }

  lemma OpenSpaceKeeps(c: Conn, s: Space)
    requires SpacesInv(c) && SpaceOf(c.spaces, s.id) == |c.spaces| && OpenSpace(c, s).Ok?
    ensures SpacesInv(OpenSpace(c, s).value)
  {
  }

  /** One call on the connection's identifiers. */
  datatype Call =
    | IssueScid(id: nat, cid: Cid, token: Option<nat>, advertise: bool, path: Option<FourTuple>, retireIfNeeded: bool)
    | ReceiveDcid(id: nat, cid: Cid, num: nat, resetToken: nat, retirePriorTo: nat)
    | ClosePath(id: nat)
    | AllowLocal(v: nat, announce: bool)
    | TakeSpare
    | AllowRemote(v: nat)
    | RetireOurs(id: nat, num: nat, pktDcid: Cid)
    | RetireTheirs(id: nat, num: nat)
    | MarkTheirs(id: nat, num: nat, retire: bool)
    | BeginClosing(id: nat)
    | Learn(cid: Cid, token: Option<nat>, path: Option<FourTuple>)
    | Limit(v: nat)
    | MarkOurs(id: nat, num: nat, advertise: bool)

  function Apply(c: Conn, call: Call): Conn {
    match call
    case IssueScid(id, cid, token, advertise, path, retireIfNeeded) =>
      NewScid(c, id, cid, token, advertise, path, retireIfNeeded).0
    case ReceiveDcid(id, cid, num, token, floor) => NewDcid(c, id, cid, num, token, floor).0
    case ClosePath(id) => RemovePathId(c, id).0
    case AllowLocal(v, announce) => SetLocalMax(c, v, announce)
    case TakeSpare => ConsumeSpare(c)
    case AllowRemote(v) => SetRemoteMax(c, v)
    case RetireOurs(id, num, pktDcid) => RetireScid(c, id, num, pktDcid).0
    case RetireTheirs(id, num) => RetireDcid(c, id, num).0
    case MarkTheirs(id, num, retire) => MarkRetireDcidSeq(c, id, num, retire).0
    case BeginClosing(id) => ClosingPathId(c, id)
    case Learn(cid, token, path) => LearnDcid(c, cid, token, path)
    case Limit(v) => LimitSource(c, v)
    case MarkOurs(id, num, advertise) => c.(advertise := MarkAdvertise(c.advertise, (id, num), advertise))
  }

  /** Calls that change which path IDs there are. */
  predicate ChangesIds(call: Call) {
    call.IssueScid? || call.ReceiveDcid? || call.ClosePath? || call.AllowLocal? || call.AllowRemote? || call.TakeSpare?
  }

  function Run(c: Conn, calls: seq<Call>): Conn
    decreases |calls|
  {
    if calls == [] then c else Run(Apply(c, calls[0]), calls[1..])
  }

  lemma WithoutSpace(c: Conn, i: nat)
    requires SpacesInv(c) && i < |c.spaces| && |c.spaces| >= 2
    ensures var t := c.(spaces := c.spaces[..i] + c.spaces[i + 1..]);
            SpacesInv(t) && forall k :: 0 <= k < |t.spaces| ==> t.spaces[k].id != c.spaces[i].id
  {
    hide DistinctIds;
    DropSpace(c.spaces, i);
  }

  lemma ClosedKeeps(c: Conn, id: nat, told: seq<(nat, Cid)>)
    requires SpacesInv(c) && forall k :: 0 <= k < |c.spaces| ==> c.spaces[k].id != id
    ensures SpacesInv(c.(closed := c.closed + [id], retiredScids := told))
  {
    hide DistinctIds;
  }

  lemma RemoveKeeps(c: Conn, id: nat)
    requires SpacesInv(c)
    ensures SpacesInv(RemovePathId(c, id).0) && MaxPathId(RemovePathId(c, id).0) == MaxPathId(c)
    ensures c.closed <= RemovePathId(c, id).0.closed
    ensures RemovePathId(c, id).1.Ok? ==> id in RemovePathId(c, id).0.closed
  {
    var i := SpaceOf(c.spaces, id);
    if |c.spaces| >= 2 {
      RemovedKeeps(c, id, i);
    }
  }

  lemma RemovedKeeps(c: Conn, id: nat, i: nat)
    requires SpacesInv(c) && |c.spaces| >= 2 && i == SpaceOf(c.spaces, id)
    ensures SpacesInv(RemovePathId(c, id).0)
  {
    hide RetireAll, Farewells, SpacesInv, SpaceOf;
    if i < |c.spaces| {
      WithoutSpace(c, i);
      var t := c.(spaces := c.spaces[..i] + c.spaces[i + 1..]);
      ClosedKeeps(t, id, c.retiredScids + Farewells(id, c.spaces[i].src.scids.inner));
    } else {
      ClosedKeeps(c, id, c.retiredScids);
    }
  }

  /** Dropping one space leaves the others, and no space with its ID. */
  lemma DropSpace(ss: seq<Space>, i: nat)
    requires i < |ss| && DistinctIds(ss)
    ensures var fs := ss[..i] + ss[i + 1..];
            DistinctIds(fs) && forall k :: 0 <= k < |fs| ==> fs[k] in ss && fs[k].id != ss[i].id
  {
  }

  lemma IssueOnKeeps(c: Conn, i: nat, cid: Cid, token: Option<nat>, advertise: bool, path: Option<FourTuple>,
                     retireIfNeeded: bool)
    requires SpacesInv(c) && i < |c.spaces|
    ensures var t := IssueOn(c, i, cid, token, advertise, path, retireIfNeeded).0;
            SpacesInv(t) && t.closed == c.closed && MaxPathId(t) == MaxPathId(c)
  {
    hide CidSpec.NewScid, MarkAdvertise;
  }

  lemma NewScidKeeps(c: Conn, id: nat, cid: Cid, token: Option<nat>, advertise: bool, path: Option<FourTuple>,
                     retireIfNeeded: bool)
    requires SpacesInv(c)
    ensures var t := NewScid(c, id, cid, token, advertise, path, retireIfNeeded).0;
            SpacesInv(t) && t.closed == c.closed && MaxPathId(t) == MaxPathId(c)
  {
    var s := Space(id, InitialSource(c.sourceLimit, Some(cid), path, token),
                   InitialDestination(c.destinationLimit, Some(cid), None, path, token));
    if SpaceOf(c.spaces, id) < |c.spaces| {
      IssueOnKeeps(c, SpaceOf(c.spaces, id), cid, token, advertise, path, retireIfNeeded);
    } else if OpenSpace(c, s).Ok? {
      OpenSpaceKeeps(c, s);
    }
  }

  lemma NewDcidKeeps(c: Conn, id: nat, cid: Cid, num: nat, token: nat, floor: nat)
    requires SpacesInv(c)
    ensures var t := NewDcid(c, id, cid, num, token, floor).0;
            SpacesInv(t) && t.closed == c.closed && MaxPathId(t) == MaxPathId(c)
  {
    var s := Space(id, InitialSource(c.sourceLimit, None, None, Some(token)),
                   InitialDestination(c.destinationLimit, None, Some(cid), None, Some(token)));
    if SpaceOf(c.spaces, id) == |c.spaces| && OpenSpace(c, s).Ok? {
      OpenSpaceKeeps(c, s);
    }
  }

  lemma LimitsKeep(c: Conn, call: Call)
    requires SpacesInv(c) && (call.AllowLocal? || call.AllowRemote? || call.TakeSpare?)
    ensures SpacesInv(Apply(c, call)) && Apply(c, call).closed == c.closed
    ensures MaxPathId(c) <= MaxPathId(Apply(c, call))
  {
    hide NewScid, NewDcid, RemovePathId, DistinctIds, LowestSpare;
  }

  /** The other calls change spaces, never their IDs. */
  lemma IdsStay(c: Conn, call: Call)
    requires !ChangesIds(call)
    ensures var t := Apply(c, call);
            && |t.spaces| == |c.spaces| && (forall i :: 0 <= i < |c.spaces| ==> t.spaces[i].id == c.spaces[i].id)
            && t.closed == c.closed && t.capacity == c.capacity && t.localMax == c.localMax && t.remoteMax == c.remoteMax
            && t.spare == c.spare && t.largest == c.largest
  {
    hide CidSpec.RetireScid, CidSpec.RetireDcid, SetInitialDcid, SetSourceLimit, Marked, SpaceOf, MarkAdvertise;
  }

  lemma SameIdsKeep(c: Conn, call: Call)
    requires SpacesInv(c) && !ChangesIds(call)
    ensures SpacesInv(Apply(c, call)) && Apply(c, call).closed == c.closed && MaxPathId(Apply(c, call)) == MaxPathId(c)
  {
    hide Apply;
    IdsStay(c, call);
  }

  lemma ApplyKeeps(c: Conn, call: Call)
    requires SpacesInv(c)
    ensures SpacesInv(Apply(c, call))
    ensures c.closed <= Apply(c, call).closed
    ensures MaxPathId(c) <= MaxPathId(Apply(c, call))
  {
    hide NewScid, NewDcid, RemovePathId, SpacesInv, RetireScid, RetireDcid, MarkRetireDcidSeq, ClosingPathId, LearnDcid,
         LimitSource;
    match call {
      case IssueScid(id, cid, token, advertise, path, retireIfNeeded) =>
        NewScidKeeps(c, id, cid, token, advertise, path, retireIfNeeded);
      case ReceiveDcid(id, cid, num, token, floor) => NewDcidKeeps(c, id, cid, num, token, floor);
      case ClosePath(id) => RemoveKeeps(c, id);
      case _ =>
        if ChangesIds(call) {
          LimitsKeep(c, call);
        } else {
          SameIdsKeep(c, call);
        }
    }
  }

  /**
   Over every run: path IDs with a space are distinct, allowed and not closed; there is room for all
   allowed IDs; and a path ID once recorded as closed stays closed and never has a space again.
   */
  lemma {:induction false} RunKeepsSpaces(c: Conn, calls: seq<Call>)
    requires SpacesInv(c)
    ensures SpacesInv(Run(c, calls))
    ensures c.closed <= Run(c, calls).closed
    ensures forall id :: id in c.closed ==> SpaceOf(Run(c, calls).spaces, id) == |Run(c, calls).spaces|
    ensures MaxPathId(c) <= MaxPathId(Run(c, calls))
    decreases |calls|
  {
    if calls != [] {
      ApplyKeeps(c, calls[0]);
      RunKeepsSpaces(Apply(c, calls[0]), calls[1..]);
    }
  }
}
