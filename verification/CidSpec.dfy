/**
 Connection identifiers of one path space, as values: what `PathConnectionIdentifiers`
 (quiche/src/cid.rs) does to its source and destination queues. The class of the same
 name in `PathCids` is proved against the functions here.
 */
module CidSpec {
  import opened Common

  type Cid = seq<byte>
  type FourTuple = (nat, nat)

  /** A connection ID and its metadata (`ConnectionIdEntry`). */
  datatype Entry = Entry(cid: Cid, num: nat, token: Option<nat>, path: Option<FourTuple>)

  // -------------------------------------------------------------------------
  // The bounded, never empty queue
  // -------------------------------------------------------------------------

  /** Index of the first entry that satisfies `p`, or `|es|`. */
  function FirstWhere(es: seq<Entry>, p: Entry -> bool): (i: nat)
    ensures i <= |es|
    ensures i < |es| ==> p(es[i])
    ensures forall j :: 0 <= j < i ==> !p(es[j])
  {
    if es == [] || p(es[0]) then 0 else 1 + FirstWhere(es[1..], p)
  }

  /** Index of the first entry with sequence number `num`, or `|es|`. */
  function IndexOf(es: seq<Entry>, num: nat): (i: nat)
    ensures i <= |es|
    ensures i < |es| ==> es[i].num == num
    ensures forall j :: 0 <= j < i ==> es[j].num != num
  {
    FirstWhere(es, (e: Entry) => e.num == num)
  }

  /** Index of the first entry that carries `cid`, or `|es|`. */
  function IndexOfCid(es: seq<Entry>, cid: Cid): (i: nat)
    ensures i <= |es|
    ensures i < |es| ==> es[i].cid == cid
    ensures forall j :: 0 <= j < i ==> es[j].cid != cid
  {
    FirstWhere(es, (e: Entry) => e.cid == cid)
  }

  /** `BoundedNonEmptyVecDeque<ConnectionIdEntry>`: entries in insertion order. */
  datatype Deque = Deque(inner: seq<Entry>, capacity: nat) {

    function Resize(newCapacity: nat): Deque {
      if newCapacity > capacity then this.(capacity := newCapacity) else this
    }

    function Insert(e: Entry): Result<Deque> {
      var i := IndexOf(inner, e.num);
      if i < |inner| then Ok(this.(inner := inner[i := e]))
      else if |inner| >= capacity then Err(IdLimit)
      else Ok(this.(inner := inner + [e]))
    }

    function ClearAndInsert(e: Entry): Deque {
      this.(inner := [e])
    }

    function Remove(num: nat, allowEmpty: bool): Result<(Deque, Option<Entry>)> {
      if |inner| <= 1 then
        if allowEmpty then Ok((this, None)) else Err(OutOfIdentifiers)
      else
        var i := IndexOf(inner, num);
        if i < |inner| then Ok((this.(inner := inner[..i] + inner[i + 1..]), Some(inner[i])))
        else Ok((this, None))
    }
  }

  /** The sequence numbers of some entries. */
  function Nums(es: seq<Entry>): set<nat> {
    set i | 0 <= i < |es| :: es[i].num
  }

  /** The (number, connection ID) pairs of some entries. */
  ghost function Pairs(es: seq<Entry>): set<(nat, Cid)> {
    set i | 0 <= i < |es| :: (es[i].num, es[i].cid)
  }

  ghost predicate Increasing(es: seq<Entry>) {
    forall i, j :: 0 <= i < j < |es| ==> es[i].num < es[j].num
  }

  ghost predicate DistinctCids(es: seq<Entry>) {
    forall i, j :: 0 <= i < j < |es| ==> es[i].cid != es[j].cid
  }

  // -------------------------------------------------------------------------
  // Source side
  // -------------------------------------------------------------------------

  /** The source half of a path space: the IDs we issued to the peer. */
  datatype Source = Source(
    scids: Deque, nextSeq: nat, retirePriorTo: nat, limit: nat, closing: bool, initialized: bool)

  /** Sequence numbers of the stored IDs whose removal was not requested below `floor`. */
  function Usable(es: seq<Entry>, floor: nat): set<nat> {
    set n | n in Nums(es) && n >= floor
  }

  /** The least usable sequence number. */
  function LowestUsable(es: seq<Entry>, floor: nat): Option<nat> {
    var usable := Usable(es, floor);
    if usable == {} then None
    else
      LeastExists(usable);
      var m :| m in usable && forall n :: n in usable ==> m <= n;
      Some(m)
  }

  function SetSourceLimit(s: Source, v: nat): Source {
    var v := if v <= USIZE_MAX / 2 then v else USIZE_MAX / 2;
    if v >= 2 then s.(limit := v, scids := s.scids.Resize(2 * v - 1)) else s
  }

  /** `new_scid`: the new state and the answer; a rejected call may already have raised the floor. */
  function NewScid(s: Source, cid: Cid, token: Option<nat>, path: Option<FourTuple>, retireIfNeeded: bool):
    (Source, Result<(bool, nat)>)
  {
    if !s.initialized then
      (s.(scids := s.scids.ClearAndInsert(Entry(cid, 0, token, path)), initialized := true), Ok((true, 0)))
    else if |s.scids.inner| >= s.limit && !retireIfNeeded then
      (s, Err(IdLimit))
    else if |s.scids.inner| >= s.limit && LowestUsable(s.scids.inner, s.retirePriorTo).None? then
      (s, Err(InvalidState))
    else
      AddScid(Raised(s), cid, token, path)
  }

  /** The state after the floor was raised for a full queue; unchanged otherwise. */
  function Raised(s: Source): Source {
    var low := LowestUsable(s.scids.inner, s.retirePriorTo);
    if |s.scids.inner| >= s.limit && low.Some? then s.(retirePriorTo := low.value + 1) else s
  }

  /** The second half of `new_scid`: token, duplicate and capacity checks, then the insertion. */
  function AddScid(s: Source, cid: Cid, token: Option<nat>, path: Option<FourTuple>): (Source, Result<(bool, nat)>) {
    var i := IndexOfCid(s.scids.inner, cid);
    if token.None? && s.nextSeq != 0 then (s, Err(InvalidState))
    else if i < |s.scids.inner| then
      if s.scids.inner[i].token != token then (s, Err(InvalidState))
      else (s, Ok((false, s.scids.inner[i].num)))
    else
      match s.scids.Insert(Entry(cid, s.nextSeq, token, path))
      case Err(e) => (s, Err(e))
      case Ok(q) => (s.(scids := q, nextSeq := s.nextSeq + 1), Ok((true, s.nextSeq)))
  }

  /** `retire_scid`: answers a RETIRE_CONNECTION_ID that came in a packet addressed to `pktDcid`. */
  function RetireScid(s: Source, num: nat, pktDcid: Cid): (Source, Result<Option<Entry>>) {
    if num >= s.nextSeq then (s, Err(InvalidState))
    else
      match s.scids.Remove(num, s.closing)
      case Err(e) => (s, Err(e))
      case Ok((q, None)) => (s.(scids := q), Ok(None))
      case Ok((q, Some(e))) =>
        var t := s.(scids := q);
        if e.cid == pktDcid then (t, Err(InvalidState))
        else
          match LowestUsable(q.inner, s.retirePriorTo)
          case None => (t, Err(InvalidState))
          case Some(low) => (t.(retirePriorTo := low), Ok(Some(e)))
  }

  // -------------------------------------------------------------------------
  // Destination side
  // -------------------------------------------------------------------------

  const RETIRED_CONN_ID_LIMIT_MULTIPLIER := 3

  /** The destination half of a path space: the IDs the peer issued to us. */
  datatype Destination = Destination(
    dcids: Deque, retired: set<nat>, retiredCapacity: nat, peerRetirePriorTo: nat, largestSeq: nat,
    closing: bool, initialized: bool)

  /** Number of leading entries below `floor`: the cut `partition_point` finds in a partitioned list. */
  function PartitionPoint(es: seq<Entry>, floor: nat): (k: nat)
    ensures k <= |es|
    ensures forall i :: 0 <= i < k ==> es[i].num < floor
    ensures k < |es| ==> es[k].num >= floor
  {
    if es == [] || es[0].num >= floor then 0 else 1 + PartitionPoint(es[1..], floor)
  }

  /** Feeding drained entries to the bounded retire set; the first refusal stops the feeding. */
  function RetireAll(retired: set<nat>, capacity: nat, es: seq<Entry>): (set<nat>, bool)
    decreases es
  {
    if es == [] then (retired, true)
    else if |retired| >= capacity then (retired, false)
    else RetireAll(retired + {es[0].num}, capacity, es[1..])
  }

  /** The number and network path of an entry that is bound to one. */
  function PathOf(e: Entry): seq<(nat, FourTuple)> {
    if e.path.Some? then [(e.num, e.path.value)] else []
  }

  /** What the drain reports to its caller: the paths of all entries up to the first refused one. */
  function DrainedPaths(retired: set<nat>, capacity: nat, es: seq<Entry>): seq<(nat, FourTuple)>
    decreases es
  {
    if es == [] then []
    else if |retired| >= capacity then PathOf(es[0])
    else PathOf(es[0]) + DrainedPaths(retired + {es[0].num}, capacity, es[1..])
  }

  /** The paths `new_dcid` reports, which lost their destination ID. */
  function RetiredPaths(d: Destination, cid: Cid, num: nat, retirePriorTo: nat): seq<(nat, FourTuple)> {
    if d.initialized && IndexOfEither(d.dcids.inner, cid, num) == |d.dcids.inner|
       && d.peerRetirePriorTo < retirePriorTo <= num then
      DrainedPaths(d.retired, d.retiredCapacity, d.dcids.inner[..PartitionPoint(d.dcids.inner, retirePriorTo)])
    else []
  }

  /** First entry that shares the connection ID or the sequence number, or `|es|`. */
  function IndexOfEither(es: seq<Entry>, cid: Cid, num: nat): (i: nat)
    ensures i <= |es|
    ensures i < |es| ==> es[i].cid == cid || es[i].num == num
    ensures forall j :: 0 <= j < i ==> es[j].cid != cid && es[j].num != num
  {
    FirstWhere(es, (e: Entry) => e.cid == cid || e.num == num)
  }

  /** `set_initial_dcid`. */
  function SetInitialDcid(d: Destination, cid: Cid, num: nat, token: Option<nat>, path: Option<FourTuple>): Destination {
    d.(dcids := d.dcids.ClearAndInsert(Entry(cid, num, token, path)), initialized := true)
  }

  /** `new_dcid`: processes the fields of a NEW_CONNECTION_ID frame. */
  function NewDcid(d: Destination, cid: Cid, num: nat, token: nat, retirePriorTo: nat): (Destination, Result<()>) {
    if !d.initialized then (SetInitialDcid(d, cid, num, Some(token), None), Ok(()))
    else
      var i := IndexOfEither(d.dcids.inner, cid, num);
      if i < |d.dcids.inner| then
        var e := d.dcids.inner[i];
        if e.cid != cid || e.num != num || e.token != Some(token) then (d, Err(InvalidFrame))
        else (d, Ok(()))
      else if retirePriorTo > num then (d, Err(InvalidFrame))
      else if num < d.peerRetirePriorTo then MarkRetired(d, num)
      else StoreDcid(d.(largestSeq := if num > d.largestSeq then num else d.largestSeq),
                     Entry(cid, num, Some(token), None), retirePriorTo)
  }

  /** `mark_retire_dcid_seq(num, true)`. */
  function MarkRetired(d: Destination, num: nat): (Destination, Result<()>) {
    if |d.retired| >= d.retiredCapacity then (d, Err(IdLimit)) else (d.(retired := d.retired + {num}), Ok(()))
  }

  /** The end of `new_dcid`: drain what the frame retires, then insert the new entry. */
  function StoreDcid(d: Destination, e: Entry, retirePriorTo: nat): (Destination, Result<()>) {
    if retirePriorTo > d.peerRetirePriorTo then
      var k := PartitionPoint(d.dcids.inner, retirePriorTo);
      var (retired, room) := RetireAll(d.retired, d.retiredCapacity, d.dcids.inner[..k]);
      var drained := d.(dcids := d.dcids.(inner := d.dcids.inner[k..]), retired := retired,
                        peerRetirePriorTo := retirePriorTo);
      match drained.dcids.Insert(e)
      case Err(err) => (drained, Err(err))
      case Ok(q) => (drained.(dcids := q), if room then Ok(()) else Err(IdLimit))
    else
      match d.dcids.Insert(e)
      case Err(err) => (d, Err(err))
      case Ok(q) => (d.(dcids := q), Ok(()))
  }

  /** `retire_dcid`: the application gives up one destination ID. */
  function RetireDcid(d: Destination, num: nat): (Destination, Result<Option<FourTuple>>) {
    match d.dcids.Remove(num, d.closing)
    case Err(e) => (d, Err(e))
    case Ok((q, Some(e))) =>
      var (t, r) := MarkRetired(d.(dcids := q), num);
      (t, if r.Err? then Err(r.error) else Ok(e.path))
    case Ok((q, None)) => (d, if d.closing then Ok(None) else Err(InvalidState))
  }
}
