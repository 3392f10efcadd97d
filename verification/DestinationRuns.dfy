/**
 Whole-run properties of the destination side: NEW_CONNECTION_ID frames that arrive in increasing
 sequence order, whatever else the peer puts in them (quiche/src/cid.rs).
 */
module DestinationRuns {
  import opened Common
  import opened CidSpec
  import opened SourceRuns

  /** What every reachable destination side satisfies. */
  ghost predicate DestinationInv(d: Destination) {
    && d.initialized
    && 1 <= |d.dcids.inner| <= d.dcids.capacity
    && Increasing(d.dcids.inner) && DistinctCids(d.dcids.inner)
    && (forall i :: 0 <= i < |d.dcids.inner| ==> d.peerRetirePriorTo <= d.dcids.inner[i].num <= d.largestSeq)
    && (forall n :: n in d.retired ==> n <= d.largestSeq)
    && Nums(d.dcids.inner) !! d.retired
    && d.peerRetirePriorTo <= d.largestSeq
    && |d.retired| <= d.retiredCapacity
  }

  /** A destination side whose initial ID was learnt during the handshake. */
  function FreshDestination(cid: Cid, token: Option<nat>, path: Option<FourTuple>, limit: nat): (d: Destination)
    ensures DestinationInv(d)
  {
    var limit := if limit < 2 then 2 else limit;
    Destination(Deque([Entry(cid, 0, token, path)], limit), {}, limit * RETIRED_CONN_ID_LIMIT_MULTIPLIER,
                0, 0, false, true)
  }

  /** The active numbers a frame with floor `floor` asks to retire. */
  function Below(es: seq<Entry>, floor: nat): set<nat> {
    set n | n in Nums(es) && n < floor
  }

  // -------------------------------------------------------------------------
  // The drain
  // -------------------------------------------------------------------------

  lemma HeadIsNew(es: seq<Entry>)
    requires Increasing(es) && es != []
    ensures Increasing(es[1..]) && es[0].num !in Nums(es[1..])
  {
  }

  lemma NumsSizes(es: seq<Entry>)
    ensures es == [] ==> Nums(es) == {}
  {
  }

  /** Every drained number reaches the retire set exactly when there is room for all of them. */
  lemma {:induction false} RetireAllExact(retired: set<nat>, capacity: nat, es: seq<Entry>)
    requires Increasing(es) && Nums(es) !! retired && |retired| <= capacity
    ensures RetireAll(retired, capacity, es).1 <==> |retired| + |es| <= capacity
    ensures RetireAll(retired, capacity, es).1 ==> RetireAll(retired, capacity, es).0 == retired + Nums(es)
    ensures retired <= RetireAll(retired, capacity, es).0 <= retired + Nums(es)
    ensures |RetireAll(retired, capacity, es).0| <= capacity
    decreases |es|
  {
    hide Nums;
    NumsSizes(es);
    if es != [] && |retired| < capacity {
      NumsCons(es);
      HeadIsNew(es);
      RetireAllExact(retired + {es[0].num}, capacity, es[1..]);
    }
  }

  /**
   Whatever the numbers, repeated or retired already: all are taken in exactly when the set is not full
   before the last of them.
   */
  lemma {:induction false} RetireAllIff(retired: set<nat>, capacity: nat, es: seq<Entry>)
    ensures RetireAll(retired, capacity, es).1 <==>
              es == [] || |retired + Nums(es[..|es| - 1])| < capacity
    decreases |es|
  {
    hide Nums;
    if es != [] {
      var first, rest := es[0].num, es[1..];
      NumsSizes(es[..0]);
      if rest == [] {
        assert es[..|es| - 1] == es[..0] && retired + {} == retired;
      } else {
        RetireAllIff(retired + {first}, capacity, rest);
        NumsCons(es[..|es| - 1]);
        assert es[..|es| - 1][1..] == rest[..|rest| - 1];
        assert retired + Nums(es[..|es| - 1]) == (retired + {first}) + Nums(rest[..|rest| - 1]);
        SubsetSize(retired, retired + Nums(es[..|es| - 1]));
      }
    }
  }

  /** For distinct numbers not retired yet that is the plain count. */
  lemma RetireAllCounts(retired: set<nat>, capacity: nat, es: seq<Entry>)
    requires |Nums(es)| == |es| && Nums(es) !! retired && |retired| <= capacity
    ensures RetireAll(retired, capacity, es).1 <==> |retired| + |es| <= capacity
  {
    hide Nums;
    RetireAllIff(retired, capacity, es);
    if es != [] {
      var init, last := es[..|es| - 1], es[|es| - 1];
      assert es == init + [last];
      NumsAppend(init, last);
      NumsSize(init);
      assert |Nums(init)| + 1 >= |Nums(init) + {last.num}|;
      assert |retired + Nums(init)| == |retired| + |Nums(init)|;
    }
  }

  lemma CutBounds(es: seq<Entry>, floor: nat, k: nat)
    requires Increasing(es) && k == PartitionPoint(es, floor)
    ensures forall i :: 0 <= i < k ==> es[i].num < floor
    ensures forall i :: k <= i < |es| ==> es[i].num >= floor
  {
    hide PartitionPoint;
  }

  lemma CutNums(low: seq<Entry>, high: seq<Entry>, floor: nat)
    requires forall i :: 0 <= i < |low| ==> low[i].num < floor
    requires forall i :: 0 <= i < |high| ==> high[i].num >= floor
    ensures Nums(low) == Below(low + high, floor) && Nums(high) == Nums(low + high) - Below(low + high, floor)
  {
    NumsConcat(low, high);
  }

  /** In a list sorted by number the drained prefix is exactly what lies below the floor. */
  lemma SortedCut(es: seq<Entry>, floor: nat)
    requires Increasing(es)
    ensures var k := PartitionPoint(es, floor);
            && Nums(es[..k]) == Below(es, floor)
            && Nums(es[k..]) == Nums(es) - Below(es, floor)
            && Pairs(es[k..]) <= Pairs(es)
            && (forall i :: 0 <= i < |es[k..]| ==> es[k..][i].num >= floor)
  {
    hide PartitionPoint, Increasing, Nums, Below;
    var k := PartitionPoint(es, floor);
    CutBounds(es, floor, k);
    assert es == es[..k] + es[k..];
    CutNums(es[..k], es[k..], floor);
    assert forall i :: 0 <= i < |es[k..]| ==> es[k..][i] == es[k + i];
  }

  /** Is the list cut in two by the floor, low numbers first? */
  ghost predicate Partitioned(es: seq<Entry>, floor: nat) {
    forall i, j :: 0 <= i < j < |es| && es[j].num < floor ==> es[i].num < floor
  }

  /** Draining the first `k` entries removes exactly those below the floor. */
  ghost predicate CutIsRight(es: seq<Entry>, floor: nat, k: nat)
    requires k <= |es|
  {
    (forall i :: 0 <= i < k ==> es[i].num < floor) && (forall i :: k <= i < |es| ==> es[i].num >= floor)
  }

  /**
   `drain(..index)` can only be right for a partitioned list: on any other list, whatever index the
   binary search returns, an entry below the floor stays active or one above it is retired.
   */
  lemma DrainRightIff(es: seq<Entry>, floor: nat)
    ensures Partitioned(es, floor) <==> exists k :: 0 <= k <= |es| && CutIsRight(es, floor, k)
    ensures Partitioned(es, floor) ==> CutIsRight(es, floor, PartitionPoint(es, floor))
  {
    if Partitioned(es, floor) {
      var k := PartitionPoint(es, floor);
      assert CutIsRight(es, floor, k);
    }
  }

  /** Frames 0, 2, 1 in that arrival order: no cut serves a later Retire Prior To of 2. */
  lemma ReorderedFramesCannotBeCut(c0: Cid, c1: Cid, c2: Cid, t0: nat, t1: nat, t2: nat)
    requires c0 != c1 && c1 != c2 && c0 != c2
    ensures var d := FreshDestination(c0, Some(t0), None, 4);
            var (d1, r1) := NewDcid(d, c2, 2, t2, 0);
            var (d2, r2) := NewDcid(d1, c1, 1, t1, 0);
            r1.Ok? && r2.Ok? && !Partitioned(d2.dcids.inner, 2)
  {
    var d := FreshDestination(c0, Some(t0), None, 4);
    var e0, e1, e2 := Entry(c0, 0, Some(t0), None), Entry(c1, 1, Some(t1), None), Entry(c2, 2, Some(t2), None);
    var (d1, r1) := NewDcid(d, c2, 2, t2, 0);
    assert d1.dcids.inner == [e0, e2];
    var (d2, r2) := NewDcid(d1, c1, 1, t1, 0);
    assert d2.dcids.inner == [e0, e2, e1];
    assert d2.dcids.inner[1].num == 2 && d2.dcids.inner[2].num == 1;
  }

  // -------------------------------------------------------------------------
  // One frame
  // -------------------------------------------------------------------------

  /** A new connection ID with a number above everything seen. */
  ghost predicate InOrder(d: Destination, cid: Cid, num: nat) {
    num > d.largestSeq && forall i :: 0 <= i < |d.dcids.inner| ==> d.dcids.inner[i].cid != cid
  }

  /** Room in the retire queue for what the frame drains, and in the active list for the new ID. */
  ghost predicate Fits(d: Destination, floor: nat) {
    && |d.retired| + |Below(d.dcids.inner, floor)| <= d.retiredCapacity
    && |Nums(d.dcids.inner) - Below(d.dcids.inner, floor)| < d.dcids.capacity
  }

  /** What is left active after the drain. */
  lemma KeptFacts(d: Destination, floor: nat)
    requires DestinationInv(d)
    ensures var kept := d.dcids.inner[PartitionPoint(d.dcids.inner, floor)..];
            && Increasing(kept) && DistinctCids(kept)
            && (forall i :: 0 <= i < |kept| ==> floor <= kept[i].num <= d.largestSeq)
            && Pairs(kept) <= Pairs(d.dcids.inner)
            && Nums(kept) == Nums(d.dcids.inner) - Below(d.dcids.inner, floor)
            && |kept| == |Nums(d.dcids.inner) - Below(d.dcids.inner, floor)|
  {
    var es := d.dcids.inner;
    SortedCut(es, floor);
    NumsSize(es[PartitionPoint(es, floor)..]);
  }

  /** What the drain adds to the retire set. */
  lemma RetiredFacts(d: Destination, floor: nat)
    requires DestinationInv(d)
    ensures var k := PartitionPoint(d.dcids.inner, floor);
            var (retired, room) := RetireAll(d.retired, d.retiredCapacity, d.dcids.inner[..k]);
            && (room <==> |d.retired| + |Below(d.dcids.inner, floor)| <= d.retiredCapacity)
            && (room ==> retired == d.retired + Below(d.dcids.inner, floor))
            && d.retired <= retired <= d.retired + Below(d.dcids.inner, floor)
            && |retired| <= d.retiredCapacity
  {
    var es, k := d.dcids.inner, PartitionPoint(d.dcids.inner, floor);
    SortedCut(es, floor);
    NumsSize(es[..k]);
    RetireAllExact(d.retired, d.retiredCapacity, es[..k]);
  }

  /** A frame that does not raise the floor drains nothing. */
  lemma NothingBelow(d: Destination, floor: nat)
    requires DestinationInv(d) && floor <= d.peerRetirePriorTo
    ensures Below(d.dcids.inner, floor) == {}
  {
  }

  /** Appending an entry numbered above everything keeps the list sorted and its IDs distinct. */
  lemma AppendKeeps(es: seq<Entry>, e: Entry)
    requires Increasing(es) && DistinctCids(es)
    requires forall i :: 0 <= i < |es| ==> es[i].num < e.num && es[i].cid != e.cid
    ensures Increasing(es + [e]) && DistinctCids(es + [e])
    ensures IndexOf(es, e.num) == |es|
    ensures Nums(es + [e]) == Nums(es) + {e.num}
    ensures Pairs(es + [e]) == Pairs(es) + {(e.num, e.cid)}
  {
    AppendInOrder(es, e);
    NumsAppend(es, e);
  }

  /** Putting the kept entries, the new one and the retire set together restores the invariant. */
  lemma Assemble(d: Destination, kept: seq<Entry>, e: Entry, retired: set<nat>, floor: nat)
    requires DestinationInv(d) && floor <= e.num
    requires Increasing(kept) && DistinctCids(kept) && |kept| < d.dcids.capacity
    requires forall i :: 0 <= i < |kept| ==> floor <= kept[i].num < e.num && kept[i].cid != e.cid
    requires forall n :: n in retired ==> n < e.num
    requires Nums(kept) !! retired && |retired| <= d.retiredCapacity
    ensures DestinationInv(d.(dcids := d.dcids.(inner := kept + [e]), retired := retired,
                              peerRetirePriorTo := floor, largestSeq := e.num))
  {
    AppendKeeps(kept, e);
  }

  /** The active list can only stay full when the frame drained nothing. */
  lemma FullMeansNothingDrained(d: Destination, e: Entry, floor: nat)
    requires DestinationInv(d) && InOrder(d, e.cid, e.num) && d.peerRetirePriorTo < floor <= e.num
    requires |d.dcids.inner| - PartitionPoint(d.dcids.inner, floor) >= d.dcids.capacity
    ensures var t := d.(largestSeq := e.num, peerRetirePriorTo := floor);
            StoreDcid(d.(largestSeq := e.num), e, floor) == (t, Err(IdLimit)) && DestinationInv(t)
  {
    assert PartitionPoint(d.dcids.inner, floor) == 0;
    assert d.dcids.inner[..0] == [] && d.dcids.inner[0..] == d.dcids.inner;
  }

  /** The state `StoreDcid` reaches when the drain leaves a free slot. */
  lemma StoreShape(d: Destination, e: Entry, floor: nat)
    requires d.peerRetirePriorTo < floor
    requires var kept := d.dcids.inner[PartitionPoint(d.dcids.inner, floor)..];
             |kept| < d.dcids.capacity && IndexOf(kept, e.num) == |kept|
    ensures var k := PartitionPoint(d.dcids.inner, floor);
            var (retired, room) := RetireAll(d.retired, d.retiredCapacity, d.dcids.inner[..k]);
            StoreDcid(d, e, floor) ==
              (d.(dcids := d.dcids.(inner := d.dcids.inner[k..] + [e]), retired := retired, peerRetirePriorTo := floor),
               if room then Ok(()) else Err(IdLimit))
  {
  }

  /** The kept entries and the new one never clash. */
  lemma KeptIsFree(d: Destination, e: Entry, floor: nat)
    requires DestinationInv(d) && InOrder(d, e.cid, e.num)
    ensures var kept := d.dcids.inner[PartitionPoint(d.dcids.inner, floor)..];
            && (forall i :: 0 <= i < |kept| ==> kept[i].num < e.num && kept[i].cid != e.cid)
            && IndexOf(kept, e.num) == |kept|
  {
    var k := PartitionPoint(d.dcids.inner, floor);
    assert forall i :: 0 <= i < |d.dcids.inner| - k ==> d.dcids.inner[k..][i] == d.dcids.inner[k + i];
  }

  /** Storing an in-order entry under a higher floor keeps the invariant, refused or not. */
  lemma StoreRaisingKeeps(d: Destination, e: Entry, floor: nat)
    requires DestinationInv(d) && InOrder(d, e.cid, e.num) && d.peerRetirePriorTo < floor <= e.num
    ensures DestinationInv(StoreDcid(d.(largestSeq := e.num), e, floor).0)
  {
    KeptFacts(d, floor);
    RetiredFacts(d, floor);
    KeptIsFree(d, e, floor);
    var k := PartitionPoint(d.dcids.inner, floor);
    var kept := d.dcids.inner[k..];
    if |kept| < d.dcids.capacity {
      Assemble(d, kept, e, RetireAll(d.retired, d.retiredCapacity, d.dcids.inner[..k]).0, floor);
      StoreShape(d.(largestSeq := e.num), e, floor);
    } else {
      FullMeansNothingDrained(d, e, floor);
    }
  }

  /** Storing an in-order entry under a higher floor: when it succeeds and what it moves. */
  lemma StoreRaisingMoves(d: Destination, e: Entry, floor: nat)
    requires DestinationInv(d) && InOrder(d, e.cid, e.num) && d.peerRetirePriorTo < floor <= e.num
    ensures var (t, r) := StoreDcid(d.(largestSeq := e.num), e, floor);
            && (r.Ok? <==> Fits(d, floor))
            && (r.Ok? ==> && Nums(t.dcids.inner) == Nums(d.dcids.inner) - Below(d.dcids.inner, floor) + {e.num}
                          && t.retired == d.retired + Below(d.dcids.inner, floor)
                          && Pairs(t.dcids.inner) <= Pairs(d.dcids.inner) + {(e.num, e.cid)})
            && t == d.(dcids := t.dcids, retired := t.retired, largestSeq := e.num, peerRetirePriorTo := floor)
            && t.dcids.capacity == d.dcids.capacity
  {
    KeptFacts(d, floor);
    RetiredFacts(d, floor);
    KeptIsFree(d, e, floor);
    var kept := d.dcids.inner[PartitionPoint(d.dcids.inner, floor)..];
    if |kept| < d.dcids.capacity {
      NumsAppend(kept, e);
      StoreShape(d.(largestSeq := e.num), e, floor);
    } else {
      FullMeansNothingDrained(d, e, floor);
    }
  }

  /** Storing an in-order entry that brings no higher floor. */
  lemma StorePlain(d: Destination, e: Entry, floor: nat)
    requires DestinationInv(d) && InOrder(d, e.cid, e.num) && floor <= d.peerRetirePriorTo
    ensures var (t, r) := StoreDcid(d.(largestSeq := e.num), e, floor);
            && (r.Ok? <==> |d.dcids.inner| < d.dcids.capacity)
            && (r.Ok? ==> Nums(t.dcids.inner) == Nums(d.dcids.inner) + {e.num}
                          && Pairs(t.dcids.inner) == Pairs(d.dcids.inner) + {(e.num, e.cid)})
            && DestinationInv(t)
            && t.retired == d.retired && t.closing == d.closing
            && t.largestSeq == e.num && t.peerRetirePriorTo == d.peerRetirePriorTo
            && t.dcids.capacity == d.dcids.capacity && t.retiredCapacity == d.retiredCapacity
  {
    AppendKeeps(d.dcids.inner, e);
    if |d.dcids.inner| < d.dcids.capacity {
      Assemble(d, d.dcids.inner, e, d.retired, d.peerRetirePriorTo);
    }
  }

  /** An in-order frame passes every check but the one on its own floor. */
  lemma NewDcidStores(d: Destination, cid: Cid, num: nat, token: nat, floor: nat)
    requires DestinationInv(d) && InOrder(d, cid, num)
    ensures NewDcid(d, cid, num, token, floor) ==
              if floor > num then (d, Err(InvalidFrame))
              else StoreDcid(d.(largestSeq := num), Entry(cid, num, Some(token), None), floor)
  {
    assert IndexOfEither(d.dcids.inner, cid, num) == |d.dcids.inner|;
  }

  /**
   An in-order frame is accepted exactly when its Retire Prior To does not pass its own number and
   both queues have room; then the active numbers below the floor move, all of them, to the retire
   set and the new number becomes active. The invariant survives refusals too.
   */
  lemma NewDcidExact(d: Destination, cid: Cid, num: nat, token: nat, floor: nat)
    requires DestinationInv(d) && InOrder(d, cid, num)
    ensures var (t, r) := NewDcid(d, cid, num, token, floor);
            && (r.Ok? <==> floor <= num && Fits(d, floor))
            && (r.Ok? ==> && Nums(t.dcids.inner) == Nums(d.dcids.inner) - Below(d.dcids.inner, floor) + {num}
                          && t.retired == d.retired + Below(d.dcids.inner, floor)
                          && Pairs(t.dcids.inner) <= Pairs(d.dcids.inner) + {(num, cid)}
                          && t.peerRetirePriorTo == (if floor > d.peerRetirePriorTo then floor else d.peerRetirePriorTo)
                          && t.largestSeq == num)
            && DestinationInv(t) && t.closing == d.closing && d.peerRetirePriorTo <= t.peerRetirePriorTo
            && t.dcids.capacity == d.dcids.capacity && t.retiredCapacity == d.retiredCapacity
  {
    hide NewDcid, Increasing, DistinctCids, Pairs, StoreDcid, Below;
    var e := Entry(cid, num, Some(token), None);
    NewDcidStores(d, cid, num, token, floor);
    if d.peerRetirePriorTo < floor <= num {
      StoreRaisingKeeps(d, e, floor);
      StoreRaisingMoves(d, e, floor);
    } else if floor <= num {
      StorePlain(d, e, floor);
      NothingBelow(d, floor);
      NumsSize(d.dcids.inner);
      assert Nums(d.dcids.inner) - {} == Nums(d.dcids.inner);
    }
  }

  lemma {:induction false} AllPathsReported(retired: set<nat>, capacity: nat, es: seq<Entry>, x: (nat, FourTuple))
    requires RetireAll(retired, capacity, es).1
    ensures x in DrainedPaths(retired, capacity, es) <==> exists i :: 0 <= i < |es| && x in PathOf(es[i])
    decreases |es|
  {
    if es != [] {
      AllPathsReported(retired + {es[0].num}, capacity, es[1..], x);
      assert forall i :: 1 <= i < |es| ==> es[i] == es[1..][i - 1];
      if i :| 0 <= i < |es[1..]| && x in PathOf(es[1..][i]) {
        assert es[i + 1] == es[1..][i];
      }
    }
  }

  /** An accepted in-order frame reports exactly the paths bound to the active IDs it retires. */
  lemma RetiredPathsExact(d: Destination, cid: Cid, num: nat, token: nat, floor: nat, x: (nat, FourTuple))
    requires DestinationInv(d) && InOrder(d, cid, num) && NewDcid(d, cid, num, token, floor).1.Ok?
    ensures x in RetiredPaths(d, cid, num, floor) <==>
              exists i :: 0 <= i < |d.dcids.inner| && d.dcids.inner[i].num < floor && x in PathOf(d.dcids.inner[i])
  {
    hide NewDcid, RetireAll, DrainedPaths, Nums, Pairs, PathOf;
    var es, k := d.dcids.inner, PartitionPoint(d.dcids.inner, floor);
    NewDcidExact(d, cid, num, token, floor);
    CutBounds(es, floor, k);
    assert IndexOfEither(es, cid, num) == |es|;
    RetiredFacts(d, floor);
    if d.peerRetirePriorTo < floor {
      AllPathsReported(d.retired, d.retiredCapacity, es[..k], x);
      assert forall i :: 0 <= i < k ==> es[..k][i] == es[i];
      if i :| 0 <= i < |es| && es[i].num < floor && x in PathOf(es[i]) {
        assert es[..k][i] == es[i];
      }
    }
  }

  /** The retire set is full when an active ID that is not the last is given up: the ID is dropped all the same. */
  predicate Leaks(d: Destination, num: nat) {
    num in Nums(d.dcids.inner) && |d.dcids.inner| >= 2 && |d.retired| >= d.retiredCapacity
  }

  /**
   An active ID that is not the last always leaves, and reaches the retire set exactly when there is room;
   otherwise the call fails and its number is lost. For any other number the call changes nothing, and
   succeeds exactly on a space that is closing.
   */
  lemma RetireDcidExact(d: Destination, num: nat)
    requires DestinationInv(d)
    ensures var (t, r) := RetireDcid(d, num);
            var leaves := num in Nums(d.dcids.inner) && |d.dcids.inner| >= 2;
            && (r.Ok? <==> if leaves then |d.retired| < d.retiredCapacity else d.closing)
            && (leaves ==> Nums(t.dcids.inner) == Nums(d.dcids.inner) - {num}
                           && t.retired == d.retired + if r.Ok? then {num} else {})
            && (!leaves ==> t == d)
            && Pairs(t.dcids.inner) <= Pairs(d.dcids.inner)
            && DestinationInv(t)
            && t == d.(dcids := d.dcids.(inner := t.dcids.inner), retired := t.retired)
  {
    hide Nums, Pairs, Increasing, DistinctCids, DestinationInv;
    DestinationLists(d);
    if |d.dcids.inner| >= 2 {
      RemoveKeeps(d.dcids, num, d.closing);
      var (q, x) := d.dcids.Remove(num, d.closing).value;
      NotFound(d.dcids.inner, num);
      if x.Some? {
        RemovedInv(d, q.inner, num);
      }
    } else {
      LastStays(d, num);
    }
  }

  lemma DestinationLists(d: Destination)
    requires DestinationInv(d)
    ensures |d.dcids.inner| >= 1 && Increasing(d.dcids.inner) && DistinctCids(d.dcids.inner)
  {
  }

  lemma NotFound(es: seq<Entry>, num: nat)
    ensures IndexOf(es, num) == |es| <==> num !in Nums(es)
  {
  }

  lemma LastStays(d: Destination, num: nat)
    requires |d.dcids.inner| <= 1
    ensures RetireDcid(d, num).0 == d && (RetireDcid(d, num).1.Ok? <==> d.closing)
  {
  }

  /** Fewer active entries and at most one more retired number keep the invariant. */
  lemma RemovedInv(d: Destination, es: seq<Entry>, num: nat)
    requires DestinationInv(d) && num in Nums(d.dcids.inner)
    requires Increasing(es) && DistinctCids(es) && 1 <= |es| <= |d.dcids.inner| && Nums(es) == Nums(d.dcids.inner) - {num}
    ensures DestinationInv(d.(dcids := d.dcids.(inner := es)))
    ensures |d.retired| < d.retiredCapacity ==>
              DestinationInv(d.(dcids := d.dcids.(inner := es), retired := d.retired + {num}))
  {
    hide Increasing, DistinctCids;
    forall i | 0 <= i < |es| ensures d.peerRetirePriorTo <= es[i].num <= d.largestSeq {
      assert es[i].num in Nums(es);
    }
  }

  /** A call loses a number exactly when it is refused for an active ID that is not the last. */
  lemma RetireDcidLeaksIff(d: Destination, num: nat)
    requires DestinationInv(d)
    ensures var (t, r) := RetireDcid(d, num);
            && (Nums(t.dcids.inner) + t.retired != Nums(d.dcids.inner) + d.retired <==> Leaks(d, num))
            && (r.Err? ==> (Leaks(d, num) <==> num in Nums(d.dcids.inner) && |d.dcids.inner| >= 2))
            && (Leaks(d, num) ==> Nums(t.dcids.inner) + t.retired == Nums(d.dcids.inner) + d.retired - {num})
  {
    hide RetireDcid, Pairs, Nums, Increasing, DistinctCids;
    RetireDcidExact(d, num);
  }

  // -------------------------------------------------------------------------
  // Runs
  // -------------------------------------------------------------------------

  datatype Call =
    | Frame(cid: Cid, num: nat, token: nat, retirePriorTo: nat)
    | GiveUp(num: nat)
    | Announced(num: nat)
    | BeginClosing

  function Apply(d: Destination, c: Call): (Destination, Result<()>) {
    match c
    case Frame(cid, num, token, floor) => NewDcid(d, cid, num, token, floor)
    case GiveUp(num) => var (t, r) := RetireDcid(d, num); (t, if r.Ok? then Ok(()) else Err(r.error))
    case Announced(num) => (d.(retired := d.retired - {num}), Ok(()))
    case BeginClosing => (d.(closing := true), Ok(()))
  }

  function Run(d: Destination, calls: seq<Call>): Destination
    decreases |calls|
  {
    if calls == [] then d else Run(Apply(d, calls[0]).0, calls[1..])
  }

  /** Frames come with fresh IDs and growing numbers; everything else is arbitrary. */
  ghost predicate InOrderRun(d: Destination, calls: seq<Call>)
    decreases |calls|
  {
    calls == [] ||
    ((calls[0].Frame? ==> InOrder(d, calls[0].cid, calls[0].num)) && InOrderRun(Apply(d, calls[0]).0, calls[1..]))
  }

  /**
   No number disappears in a successful call except by being announced to the peer, nor in an application's
   failing one except by `Leaks`.
   */
  ghost predicate Conserves(d: Destination, c: Call) {
    var (t, r) := Apply(d, c);
    r.Ok? || c.GiveUp? ==>
      Nums(t.dcids.inner) + t.retired ==
        (match c
         case Frame(_, num, _, _) => Nums(d.dcids.inner) + d.retired + {num}
         case GiveUp(num) => Nums(d.dcids.inner) + d.retired - if Leaks(d, num) then {num} else {}
         case BeginClosing => Nums(d.dcids.inner) + d.retired
         case Announced(num) => Nums(d.dcids.inner) + (d.retired - {num}))
  }

  lemma BelowIsActive(es: seq<Entry>, floor: nat)
    ensures Below(es, floor) <= Nums(es)
  {
  }

  lemma MovedNumbers(active: set<nat>, below: set<nat>, retired: set<nat>, num: nat)
    requires below <= active
    ensures (active - below + {num}) + (retired + below) == active + retired + {num}
  {
  }

  lemma ApplyKeeps(d: Destination, c: Call)
    requires DestinationInv(d)
    requires c.Frame? ==> InOrder(d, c.cid, c.num)
    ensures DestinationInv(Apply(d, c).0)
    ensures d.peerRetirePriorTo <= Apply(d, c).0.peerRetirePriorTo
    ensures Apply(d, c).0.dcids.capacity == d.dcids.capacity
    ensures Conserves(d, c)
  {
    hide NewDcid, RetireDcid, DestinationInv, Pairs, Below, Nums;
    match c {
      case Frame(cid, num, token, floor) =>
        BelowIsActive(d.dcids.inner, floor);
        NewDcidExact(d, cid, num, token, floor);
        MovedNumbers(Nums(d.dcids.inner), Below(d.dcids.inner, floor), d.retired, num);
      case GiveUp(num) =>
        RetireDcidExact(d, num);
        RetireDcidLeaksIff(d, num);
      case Announced(num) => AnnouncedKeeps(d, num);
      case BeginClosing => AnnouncedKeeps(d, 0);
    }
  }

  lemma AnnouncedKeeps(d: Destination, num: nat)
    requires DestinationInv(d)
    ensures DestinationInv(d.(retired := d.retired - {num})) && DestinationInv(d.(closing := true))
  {
    SubsetSize(d.retired - {num}, d.retired);
  }

  /**
   Over every in-order run, refused calls included: the active list is non-empty, sorted, within its
   capacity, with distinct IDs, and never holds a number below the largest Retire Prior To received.
   */
  lemma {:induction false} RunKeepsFloor(d: Destination, calls: seq<Call>)
    requires DestinationInv(d) && InOrderRun(d, calls)
    ensures DestinationInv(Run(d, calls))
    ensures Run(d, calls).dcids.capacity == d.dcids.capacity
    ensures d.peerRetirePriorTo <= Run(d, calls).peerRetirePriorTo
    decreases |calls|
  {
    if calls != [] {
      ApplyKeeps(d, calls[0]);
      RunKeepsFloor(Apply(d, calls[0]).0, calls[1..]);
    }
  }

  /** Every accepted call of an in-order run conserves the numbers held, and every call that gives up an ID but `Leaks`. */
  lemma {:induction false} RunConserves(d: Destination, calls: seq<Call>, i: nat)
    requires DestinationInv(d) && InOrderRun(d, calls) && i < |calls|
    ensures Conserves(Run(d, calls[..i]), calls[i])
    decreases |calls|
  {
    ApplyKeeps(d, calls[0]);
    if i > 0 {
      RunConserves(Apply(d, calls[0]).0, calls[1..], i - 1);
      assert calls[..i][1..] == calls[1..][..i - 1];
    }
  }
}
