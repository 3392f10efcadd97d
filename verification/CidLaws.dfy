/**
 What the connection-ID operations of one path space answer, case by case, on any state they can be called
 in: frames in any order, repeated frames and requests, numbers never issued (quiche/src/cid.rs).
 */
module CidLaws {
  import opened Common
  import opened CidSpec
  import opened SourceRuns
  import opened DestinationRuns

  // -------------------------------------------------------------------------
  // NEW_CONNECTION_ID frames in any order
  // -------------------------------------------------------------------------

  /** What every reachable destination side satisfies however frames are reordered. */
  ghost predicate AnyOrderInv(d: Destination) {
    && d.initialized && 1 <= |d.dcids.inner| <= d.dcids.capacity && |d.retired| <= d.retiredCapacity
    && DistinctNums(d.dcids.inner) && DistinctCids(d.dcids.inner)
    && d.peerRetirePriorTo <= d.largestSeq
  }

  ghost predicate DistinctNums(es: seq<Entry>) {
    forall i, j :: 0 <= i < j < |es| ==> es[i].num != es[j].num
  }

  /** No active entry has the ID or the number. */
  ghost predicate New(d: Destination, cid: Cid, num: nat) {
    forall i :: 0 <= i < |d.dcids.inner| ==> d.dcids.inner[i].cid != cid && d.dcids.inner[i].num != num
  }

  lemma NewIsFound(d: Destination, cid: Cid, num: nat)
    ensures New(d, cid, num) <==> IndexOfEither(d.dcids.inner, cid, num) == |d.dcids.inner|
  {
  }

  /** The first frame of a space teaches it its only ID, with its token. */
  lemma FirstFrame(d: Destination, cid: Cid, num: nat, token: nat, floor: nat)
    requires !d.initialized
    ensures var (t, r) := NewDcid(d, cid, num, token, floor);
            && r.Ok? && t.initialized && t.dcids.inner == [Entry(cid, num, Some(token), None)]
            && t.retired == d.retired && t.peerRetirePriorTo == d.peerRetirePriorTo && t.dcids.capacity == d.dcids.capacity
  {
  }

  /**
   A frame that repeats an active ID or number is accepted exactly when it repeats ID, number and token;
   either way it changes nothing.
   */
  lemma RepeatedFrameIff(d: Destination, cid: Cid, num: nat, token: nat, floor: nat, i: nat)
    requires AnyOrderInv(d) && i < |d.dcids.inner| && (d.dcids.inner[i].cid == cid || d.dcids.inner[i].num == num)
    ensures var (t, r) := NewDcid(d, cid, num, token, floor);
            var e := d.dcids.inner[i];
            && t == d && (r.Ok? <==> e.cid == cid && e.num == num && e.token == Some(token))
            && (r.Err? ==> r == Err(InvalidFrame))
  {
    var k := IndexOfEither(d.dcids.inner, cid, num);
    assert k <= i;
  }

  /** A new frame that asks to retire itself is refused and changes nothing. */
  lemma SelfRetiringFrame(d: Destination, cid: Cid, num: nat, token: nat, floor: nat)
    requires d.initialized && New(d, cid, num) && floor > num
    ensures NewDcid(d, cid, num, token, floor) == (d, Err(InvalidFrame))
  {
    NewIsFound(d, cid, num);
  }

  /** A new frame numbered below the known floor is accepted exactly when its number can be queued for retirement. */
  lemma LateFrameIff(d: Destination, cid: Cid, num: nat, token: nat, floor: nat)
    requires d.initialized && New(d, cid, num) && floor <= num < d.peerRetirePriorTo
    ensures var (t, r) := NewDcid(d, cid, num, token, floor);
            && (r.Ok? <==> |d.retired| < d.retiredCapacity)
            && t == d.(retired := t.retired)
            && (r.Ok? ==> t.retired == d.retired + {num})
            && (r.Err? ==> r == Err(IdLimit) && t.retired == d.retired)
  {
    NewIsFound(d, cid, num);
  }

  /** Whatever the numbers, a drain that finds room puts all of them in the set. */
  lemma {:induction false} RetireAllTakes(retired: set<nat>, capacity: nat, es: seq<Entry>)
    requires RetireAll(retired, capacity, es).1
    ensures RetireAll(retired, capacity, es).0 == retired + Nums(es)
    ensures |retired| <= capacity ==> |RetireAll(retired, capacity, es).0| <= capacity
    decreases |es|
  {
    hide Nums;
    NumsSizes(es);
    if es != [] {
      NumsCons(es);
      RetireAllTakes(retired + {es[0].num}, capacity, es[1..]);
    }
  }

  lemma {:induction false} RetireAllBounded(retired: set<nat>, capacity: nat, es: seq<Entry>)
    requires |retired| <= capacity
    ensures |RetireAll(retired, capacity, es).0| <= capacity
    decreases |es|
  {
    if es != [] && |retired| < capacity {
      RetireAllBounded(retired + {es[0].num}, capacity, es[1..]);
    }
  }

  /** How many leading entries the frame's floor drains. */
  function Drained(d: Destination, floor: nat): (k: nat)
    ensures k <= |d.dcids.inner|
  {
    if floor > d.peerRetirePriorTo then PartitionPoint(d.dcids.inner, floor) else 0
  }

  /**
   A new frame at or above the known floor, in any order: the drained entries go to the retire set, the rest
   stays, the new entry comes last with its token; it is accepted exactly when both have room.
   */
  lemma TimelyFrameExact(d: Destination, cid: Cid, num: nat, token: nat, floor: nat)
    requires AnyOrderInv(d) && New(d, cid, num) && floor <= num && d.peerRetirePriorTo <= num
    ensures var (t, r) := NewDcid(d, cid, num, token, floor);
            var k := Drained(d, floor);
            var gone := RetireAll(d.retired, d.retiredCapacity, d.dcids.inner[..k]);
            && (r.Ok? <==> gone.1 && |d.dcids.inner| - k < d.dcids.capacity)
            && (r.Err? ==> r == Err(IdLimit))
            && t.retired == gone.0 && t.retiredCapacity == d.retiredCapacity && t.dcids.capacity == d.dcids.capacity
            && t.dcids.inner == d.dcids.inner[k..] +
                 (if |d.dcids.inner| - k < d.dcids.capacity then [Entry(cid, num, Some(token), None)] else [])
            && t.peerRetirePriorTo == (if floor > d.peerRetirePriorTo then floor else d.peerRetirePriorTo)
            && t.largestSeq == (if num > d.largestSeq then num else d.largestSeq)
            && t.initialized && t.closing == d.closing
  {
    hide RetireAll, PartitionPoint, IndexOf, IndexOfEither;
    NewIsFound(d, cid, num);
    var k := Drained(d, floor);
    var kept := d.dcids.inner[k..];
    assert IndexOf(kept, num) == |kept|;
    assert d.dcids.inner[..0] == [] && d.dcids.inner[0..] == d.dcids.inner && kept + [] == kept;
    assert k == 0 ==> RetireAll(d.retired, d.retiredCapacity, d.dcids.inner[..0]) == (d.retired, true) by {
      RetireNone(d.retired, d.retiredCapacity);
    }
  }

  lemma RetireNone(retired: set<nat>, capacity: nat)
    ensures RetireAll(retired, capacity, []) == (retired, true)
  {
  }

  /** The numbers and paths of the entries that are bound to one. */
  function PathsOf(es: seq<Entry>): seq<(nat, FourTuple)> {
    if es == [] then [] else PathOf(es[0]) + PathsOf(es[1..])
  }

  /** Whether `k` is the number of leading entries that the set has room for. */
  ghost predicate FitsUpTo(retired: set<nat>, capacity: nat, es: seq<Entry>, k: nat) {
    && k <= |es| && (forall i :: 0 <= i < k ==> |retired + Nums(es[..i])| < capacity)
    && (k < |es| ==> |retired + Nums(es[..k])| >= capacity)
  }

  /** The drain takes what fits, and reports the network paths of that and of the first entry that does not fit. */
  lemma {:induction false} DrainStopsAt(retired: set<nat>, capacity: nat, es: seq<Entry>, k: nat)
    requires FitsUpTo(retired, capacity, es, k)
    ensures RetireAll(retired, capacity, es) == (retired + Nums(es[..k]), k == |es|)
    ensures DrainedPaths(retired, capacity, es) == PathsOf(es[..if k < |es| then k + 1 else k])
    decreases |es|
  {
    hide Nums, PathOf;
    NumsSizes([]);
    assert es[..0] == [];
    if es != [] {
      if k == 0 {
        assert es[..1][1..] == [] && PathsOf([]) == [];
        assert PathsOf(es[..1]) == PathOf(es[0]);
      } else {
        assert |retired + Nums(es[..0])| < capacity && retired + Nums(es[..0]) == retired;
        forall i | 0 <= i < |es| ensures retired + Nums(es[..i + 1]) == retired + {es[0].num} + Nums(es[1..][..i]) {
          assert es[..i + 1][1..] == es[1..][..i];
          NumsCons(es[..i + 1]);
        }
        DrainStopsAt(retired + {es[0].num}, capacity, es[1..], k - 1);
        var n := if k < |es| then k + 1 else k;
        assert es[..n][1..] == es[1..][..n - 1];
      }
    }
  }

  /** The numbers held, active or waiting to be retired. */
  function HeldNums(d: Destination): set<nat> {
    Nums(d.dcids.inner) + d.retired
  }

  lemma TimelyFrameConserves(d: Destination, cid: Cid, num: nat, token: nat, floor: nat)
    requires AnyOrderInv(d) && New(d, cid, num) && floor <= num && d.peerRetirePriorTo <= num
    requires NewDcid(d, cid, num, token, floor).1.Ok?
    ensures HeldNums(NewDcid(d, cid, num, token, floor).0) == HeldNums(d) + {num}
  {
    hide NewDcid, RetireAll, Nums, New, AnyOrderInv, PartitionPoint;
    TimelyFrameExact(d, cid, num, token, floor);
    var es, k, e := d.dcids.inner, Drained(d, floor), Entry(cid, num, Some(token), None);
    RetireAllTakes(d.retired, d.retiredCapacity, es[..k]);
    NumsMove(es, k, e);
  }

  lemma NumsMove(es: seq<Entry>, k: nat, e: Entry)
    requires k <= |es|
    ensures Nums(es[k..] + [e]) + Nums(es[..k]) == Nums(es) + {e.num}
  {
    hide Nums;
    assert es == es[..k] + es[k..];
    NumsConcat(es[..k], es[k..]);
    NumsAppend(es[k..], e);
  }

  /** An accepted frame adds its number to those held, in whatever order frames arrive, and nothing leaves. */
  lemma AnyFrameConserves(d: Destination, cid: Cid, num: nat, token: nat, floor: nat)
    requires AnyOrderInv(d) && NewDcid(d, cid, num, token, floor).1.Ok?
    ensures HeldNums(NewDcid(d, cid, num, token, floor).0) == HeldNums(d) + {num}
  {
    hide NewDcid, RetireAll, Nums;
    var es := d.dcids.inner;
    if !New(d, cid, num) {
      var i :| 0 <= i < |es| && (es[i].cid == cid || es[i].num == num);
      RepeatedFrameIff(d, cid, num, token, floor, i);
      NumIsListed(es, i);
    } else if floor > num {
      SelfRetiringFrame(d, cid, num, token, floor);
    } else if num < d.peerRetirePriorTo {
      LateFrameIff(d, cid, num, token, floor);
    } else {
      TimelyFrameConserves(d, cid, num, token, floor);
    }
  }

  lemma NumIsListed(es: seq<Entry>, i: nat)
    requires i < |es|
    ensures es[i].num in Nums(es)
  {
  }

  /** Every frame, accepted or refused, keeps what any order allows. */
  lemma AnyFrameKeeps(d: Destination, cid: Cid, num: nat, token: nat, floor: nat)
    requires AnyOrderInv(d)
    ensures AnyOrderInv(NewDcid(d, cid, num, token, floor).0)
    ensures d.peerRetirePriorTo <= NewDcid(d, cid, num, token, floor).0.peerRetirePriorTo
  {
    hide NewDcid, RetireAll;
    var es := d.dcids.inner;
    if New(d, cid, num) {
      if floor > num {
        SelfRetiringFrame(d, cid, num, token, floor);
      } else if num < d.peerRetirePriorTo {
        LateFrameIff(d, cid, num, token, floor);
      } else {
        TimelyFrameExact(d, cid, num, token, floor);
        var k := Drained(d, floor);
        RetireAllBounded(d.retired, d.retiredCapacity, es[..k]);
        RestStaysDistinct(es, k, Entry(cid, num, Some(token), None));
      }
    } else {
      var i :| 0 <= i < |es| && (es[i].cid == cid || es[i].num == num);
      RepeatedFrameIff(d, cid, num, token, floor, i);
    }
  }

  lemma RestStaysDistinct(es: seq<Entry>, k: nat, e: Entry)
    requires DistinctNums(es) && DistinctCids(es) && k <= |es|
    requires forall i :: 0 <= i < |es| ==> es[i].num != e.num && es[i].cid != e.cid
    ensures DistinctNums(es[k..]) && DistinctCids(es[k..]) && DistinctNums(es[k..] + [e]) && DistinctCids(es[k..] + [e])
  {
  }

  /** The network paths an accepted frame reports are those of the IDs that left, in whatever order frames arrive. */
  lemma PathsLostIff(d: Destination, cid: Cid, num: nat, token: nat, floor: nat, x: (nat, FourTuple))
    requires AnyOrderInv(d) && NewDcid(d, cid, num, token, floor).1.Ok?
    ensures x in RetiredPaths(d, cid, num, floor) <==>
              exists i :: 0 <= i < |d.dcids.inner| && x in PathOf(d.dcids.inner[i])
                          && d.dcids.inner[i] !in NewDcid(d, cid, num, token, floor).0.dcids.inner
  {
    hide NewDcid, RetireAll, PathOf, PartitionPoint, DrainedPaths, RetiredPaths;
    var es, t := d.dcids.inner, NewDcid(d, cid, num, token, floor).0;
    NoneReported(d, cid, num, floor);
    if !New(d, cid, num) {
      var i :| 0 <= i < |es| && (es[i].cid == cid || es[i].num == num);
      RepeatedFrameIff(d, cid, num, token, floor, i);
    } else if floor > num {
      SelfRetiringFrame(d, cid, num, token, floor);
    } else if num < d.peerRetirePriorTo {
      LateFrameIff(d, cid, num, token, floor);
    } else {
      TimelyFrameExact(d, cid, num, token, floor);
      var k := Drained(d, floor);
      AllPathsReported(d.retired, d.retiredCapacity, es[..k], x);
      LeftIsFront(es, k, Entry(cid, num, Some(token), None));
      assert forall i :: 0 <= i < k ==> es[..k][i] == es[i];
    }
  }

  /** When nothing is drained, no path is reported; otherwise those of the drained entries. */
  lemma NoneReported(d: Destination, cid: Cid, num: nat, floor: nat)
    requires d.initialized
    ensures RetiredPaths(d, cid, num, floor) ==
              if New(d, cid, num) && floor <= num
              then DrainedPaths(d.retired, d.retiredCapacity, d.dcids.inner[..Drained(d, floor)]) else []
    ensures floor <= d.peerRetirePriorTo ==> RetiredPaths(d, cid, num, floor) == []
  {
    NewIsFound(d, cid, num);
    assert d.dcids.inner[..0] == [];
  }

  lemma LeftIsFront(es: seq<Entry>, k: nat, e: Entry)
    requires DistinctNums(es) && k <= |es| && forall i :: 0 <= i < |es| ==> es[i].num != e.num
    ensures forall i :: 0 <= i < |es| ==> (es[i] in es[k..] + [e] <==> i >= k)
  {
    forall i | 0 <= i < |es| ensures es[i] in es[k..] + [e] <==> i >= k {
      if i >= k {
        assert (es[k..] + [e])[i - k] == es[i];
      }
    }
  }

  /** A run of frames in any order. */
  datatype Frame = Frame(cid: Cid, num: nat, token: nat, floor: nat)

  function Receive(d: Destination, f: Frame): (Destination, Result<()>) {
    NewDcid(d, f.cid, f.num, f.token, f.floor)
  }

  function Received(d: Destination, fs: seq<Frame>): Destination
    decreases |fs|
  {
    if fs == [] then d else Received(Receive(d, fs[0]).0, fs[1..])
  }

  /**
   Over every run of frames in any order that are all accepted, the numbers held are those held before and
   those of the frames: none is forgotten, late or not.
   */
  lemma {:induction false} AnyRunConserves(d: Destination, fs: seq<Frame>)
    requires AnyOrderInv(d)
    ensures AnyOrderInv(Received(d, fs))
    ensures AllAccepted(d, fs) ==> HeldNums(Received(d, fs)) == HeldNums(d) + set f | f in fs :: f.num
    decreases |fs|
  {
    hide Receive, HeldNums, AnyOrderInv;
    if fs != [] {
      var t := Receive(d, fs[0]).0;
      FrameStep(d, fs[0]);
      AnyRunConserves(t, fs[1..]);
      assert fs == [fs[0]] + fs[1..];
    }
  }

  lemma FrameStep(d: Destination, f: Frame)
    requires AnyOrderInv(d)
    ensures AnyOrderInv(Receive(d, f).0) && (Receive(d, f).1.Ok? ==> HeldNums(Receive(d, f).0) == HeldNums(d) + {f.num})
  {
    AnyFrameKeeps(d, f.cid, f.num, f.token, f.floor);
    if Receive(d, f).1.Ok? {
      AnyFrameConserves(d, f.cid, f.num, f.token, f.floor);
    }
  }

  ghost predicate AllAccepted(d: Destination, fs: seq<Frame>)
    decreases |fs|
  {
    fs == [] || (Receive(d, fs[0]).1.Ok? && AllAccepted(Receive(d, fs[0]).0, fs[1..]))
  }

  /** A side that satisfies the invariant of in-order runs may go on in any order. */
  lemma InOrderIsAnyOrder(d: Destination)
    requires DestinationInv(d)
    ensures AnyOrderInv(d)
  {
  }

  // -------------------------------------------------------------------------
  // Giving up destination IDs
  // -------------------------------------------------------------------------

  /** The answer names the network path the ID was bound to; on a closing space the last ID may stay. */
  lemma RetireDcidAnswer(d: Destination, i: nat)
    requires DistinctNums(d.dcids.inner) && i < |d.dcids.inner|
    ensures var e := d.dcids.inner[i];
            var (t, r) := RetireDcid(d, e.num);
            && (|d.dcids.inner| == 1 ==> t == d && r == if d.closing then Ok(None) else Err(OutOfIdentifiers))
            && (|d.dcids.inner| > 1 ==>
                  && t.dcids == d.dcids.(inner := d.dcids.inner[..i] + d.dcids.inner[i + 1..])
                  && (if |d.retired| < d.retiredCapacity then r == Ok(e.path) && t.retired == d.retired + {e.num}
                      else r == Err(IdLimit) && t.retired == d.retired))
  {
    assert IndexOf(d.dcids.inner, d.dcids.inner[i].num) == i;
  }

  /** A number that is not active is refused, unless the space is closing. */
  lemma RetireDcidUnknown(d: Destination, num: nat)
    requires num !in Nums(d.dcids.inner) && d.dcids.inner != []
    ensures RetireDcid(d, num) ==
              (d, if d.closing then Ok(None) else Err(if |d.dcids.inner| == 1 then OutOfIdentifiers else InvalidState))
  {
    assert IndexOf(d.dcids.inner, num) == |d.dcids.inner|;
  }

  // -------------------------------------------------------------------------
  // RETIRE_CONNECTION_ID requests
  // -------------------------------------------------------------------------

  /** A number never issued is refused and changes nothing. */
  lemma UnissuedRefused(s: Source, num: nat, pktDcid: Cid)
    requires num >= s.nextSeq
    ensures RetireScid(s, num, pktDcid) == (s, Err(InvalidState))
  {
  }

  /** An issued number that is no longer stored is answered without effect, unless one ID is left on an open space. */
  lemma RetiredAlready(s: Source, num: nat, pktDcid: Cid)
    requires num < s.nextSeq && num !in Nums(s.scids.inner)
    ensures RetireScid(s, num, pktDcid) ==
              (s, if |s.scids.inner| <= 1 && !s.closing then Err(OutOfIdentifiers) else Ok(None))
  {
    assert IndexOf(s.scids.inner, num) == |s.scids.inner|;
  }

  /** A request for the last ID waits on a closing space and is refused on an open one. */
  lemma LastIsKept(s: Source, num: nat, pktDcid: Cid)
    requires num < s.nextSeq && |s.scids.inner| <= 1
    ensures RetireScid(s, num, pktDcid) == (s, if s.closing then Ok(None) else Err(OutOfIdentifiers))
  {
  }

  /** An accepted request answers with the stored entry, removes it alone, and tightens the floor to the least usable ID. */
  lemma RetireScidAnswer(s: Source, i: nat, pktDcid: Cid)
    requires DistinctNums(s.scids.inner) && i < |s.scids.inner| && |s.scids.inner| >= 2 && s.scids.inner[i].num < s.nextSeq
    ensures var e := s.scids.inner[i];
            var rest := s.scids.inner[..i] + s.scids.inner[i + 1..];
            var (t, r) := RetireScid(s, e.num, pktDcid);
            && t.scids == s.scids.(inner := rest)
            && (r.Ok? ==> r == Ok(Some(e)) && e.cid != pktDcid && LowestUsable(rest, s.retirePriorTo) == Some(t.retirePriorTo))
            && (r.Err? ==> r == Err(InvalidState) && t.retirePriorTo == s.retirePriorTo)
            && (r.Err? <==> e.cid == pktDcid || Usable(rest, s.retirePriorTo) == {})
  {
    assert IndexOf(s.scids.inner, s.scids.inner[i].num) == i;
  }

  /** A repeated request has no effect: once an ID was retired, asking again is answered with nothing. */
  lemma RetireIsIdempotent(s: Source, num: nat, p: Cid, q: Cid)
    requires SourceInv(s) && RetireScid(s, num, p).1.Ok? && RetireScid(s, num, p).1.value.Some?
    requires |RetireScid(s, num, p).0.scids.inner| >= 2 || s.closing
    ensures var t := RetireScid(s, num, p).0; RetireScid(t, num, q) == (t, Ok(None))
  {
    hide RetireScid, SourceInv, Nums, Increasing, DistinctCids;
    RetireScidKeeps(s, num, p);
    RetiredIsGone(s, num, p);
    RetiredAlready(RetireScid(s, num, p).0, num, q);
  }

  /**
   With one ID left that is not so: the same request sent twice is answered with an error the second time.
   */
  lemma RepeatedRequestRefused(c0: Cid, c1: Cid)
    requires c0 != c1
    ensures var s := NewScid(FreshSource(c0, None, None, 2), c1, Some(1), None, false).0;
            var (t, r) := RetireScid(s, 0, c1);
            r == Ok(Some(Entry(c0, 0, None, None))) && RetireScid(t, 0, c1) == (t, Err(OutOfIdentifiers))
  {
    hide RetireScid;
    FirstIssue(c0, c1, false);
    var s := TwoIds(c0, c1);
    var es := s.scids.inner;
    assert es[0].num == 0 && es[1].num == 1;
    RetireScidAnswer(s, 0, c1);
    var rest := es[..0] + es[1..];
    assert rest == [es[1]] && rest[0].num == 1;
    assert 1 in Usable(rest, 0);
    var t := RetireScid(s, 0, c1).0;
    assert Nums(t.scids.inner) == {1};
    RetireScidFrame(s, 0, c1);
    RetiredAlready(t, 0, c1);
  }

  lemma RetireScidFrame(s: Source, num: nat, pktDcid: Cid)
    ensures var t := RetireScid(s, num, pktDcid).0;
            t == s.(scids := s.scids.(inner := t.scids.inner), retirePriorTo := t.retirePriorTo)
  {
  }

  lemma RetiredIsGone(s: Source, num: nat, p: Cid)
    requires SourceInv(s) && RetireScid(s, num, p).1.Ok? && RetireScid(s, num, p).1.value.Some?
    ensures var t := RetireScid(s, num, p).0;
            num !in Nums(t.scids.inner) && num < t.nextSeq && t.closing == s.closing
  {
    RemoveKeeps(s.scids, num, s.closing);
  }

  // -------------------------------------------------------------------------
  // Issuing
  // -------------------------------------------------------------------------

  /** The number answered is that of a stored entry with the ID and the token asked for, new or not. */
  lemma IssueAnswer(s: Source, cid: Cid, token: Option<nat>, path: Option<FourTuple>, retireIfNeeded: bool)
    requires SourceInv(s) && NewScid(s, cid, token, path, retireIfNeeded).1.Ok?
    ensures var (t, r) := NewScid(s, cid, token, path, retireIfNeeded);
            exists i :: 0 <= i < |t.scids.inner| && t.scids.inner[i].cid == cid && t.scids.inner[i].num == r.value.1
                        && t.scids.inner[i].token == token && (r.value.0 ==> t.scids.inner[i].path == path && i == |s.scids.inner|)
    ensures var (t, r) := NewScid(s, cid, token, path, retireIfNeeded);
            r.value.0 <==> t.scids.inner != s.scids.inner
  {
    hide LowestUsable, IndexOf;
    assert IndexOf(s.scids.inner, s.nextSeq) == |s.scids.inner|;
    var (t, r) := NewScid(s, cid, token, path, retireIfNeeded);
    var k := IndexOfCid(s.scids.inner, cid);
    assert t.scids.inner[if r.value.0 then |s.scids.inner| else k].cid == cid;
  }

  /** Why an ID is not issued: each refusal has its own reason, checked in this order. */
  lemma IssueRefusals(s: Source, cid: Cid, token: Option<nat>, path: Option<FourTuple>, retireIfNeeded: bool)
    requires SourceInv(s)
    ensures var r := NewScid(s, cid, token, path, retireIfNeeded).1;
            var full := |s.scids.inner| >= s.limit;
            var k := IndexOfCid(s.scids.inner, cid);
            var known := k < |s.scids.inner|;
            r == if full && !retireIfNeeded then Err(IdLimit)
                 else if full && Usable(s.scids.inner, s.retirePriorTo) == {} then Err(InvalidState)
                 else if token.None? then Err(InvalidState)
                 else if known && s.scids.inner[k].token != token then Err(InvalidState)
                 else if known then Ok((false, s.scids.inner[k].num))
                 else if |s.scids.inner| >= s.scids.capacity then Err(IdLimit)
                 else Ok((true, s.nextSeq))
  {
    hide IndexOf, IndexOfCid;
    assert IndexOf(s.scids.inner, s.nextSeq) == |s.scids.inner|;
  }

  /** A queue may grow, never shrink; both limits follow what the peer grants, from two on. */
  lemma LimitEffect(s: Source, v: nat)
    ensures var t := SetSourceLimit(s, v);
            && t.scids.inner == s.scids.inner && t.nextSeq == s.nextSeq && t.retirePriorTo == s.retirePriorTo
            && (v < 2 ==> t == s)
            && (2 <= v <= USIZE_MAX / 2 ==> t.limit == v)
            && (v > USIZE_MAX / 2 ==> t.limit == USIZE_MAX / 2)
            && s.scids.capacity <= t.scids.capacity && (v >= 2 ==> 2 * t.limit - 1 <= t.scids.capacity)
            && (t.scids.capacity == s.scids.capacity || t.scids.capacity == 2 * t.limit - 1)
  {
  }
}
