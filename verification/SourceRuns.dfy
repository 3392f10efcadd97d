/**
 Whole-run properties of the source side: what every sequence of `new_scid`, `retire_scid` and
 limit changes keeps, counting the calls that fail (quiche/src/cid.rs).
 */
module SourceRuns {
  import opened Common
  import opened CidSpec

  // -------------------------------------------------------------------------
  // Facts about entry lists
  // -------------------------------------------------------------------------

  lemma NumsConcat(a: seq<Entry>, b: seq<Entry>)
    ensures Nums(a + b) == Nums(a) + Nums(b)
    ensures Pairs(a + b) == Pairs(a) + Pairs(b)
  {
    var c := a + b;
    assert forall i :: 0 <= i < |a| ==> c[i] == a[i];
    forall n | n in Nums(b) ensures n in Nums(c) {
      var i :| 0 <= i < |b| && b[i].num == n;
      assert c[|a| + i] == b[i];
    }
    forall p | p in Pairs(b) ensures p in Pairs(c) {
      var i :| 0 <= i < |b| && (b[i].num, b[i].cid) == p;
      assert c[|a| + i] == b[i];
    }
  }

  lemma NumsSingle(e: Entry)
    ensures Nums([e]) == {e.num} && Pairs([e]) == {(e.num, e.cid)}
  {
    assert [e][0] == e;
  }

  lemma NumsCons(es: seq<Entry>)
    requires es != []
    ensures Nums(es) == {es[0].num} + Nums(es[1..])
  {
    assert es == [es[0]] + es[1..];
    NumsConcat([es[0]], es[1..]);
    NumsSingle(es[0]);
  }

  lemma NumsAppend(es: seq<Entry>, e: Entry)
    ensures Nums(es + [e]) == Nums(es) + {e.num}
    ensures Pairs(es + [e]) == Pairs(es) + {(e.num, e.cid)}
  {
    NumsConcat(es, [e]);
    NumsSingle(e);
  }

  /** Appending an entry at or above the floor adds exactly its number. */
  lemma UsableAppend(es: seq<Entry>, e: Entry, floor: nat)
    requires e.num >= floor
    ensures Usable(es + [e], floor) == Usable(es, floor) + {e.num}
  {
    NumsAppend(es, e);
  }

  /** Raising the floor past the least usable number removes that one number. */
  lemma UsableRaise(es: seq<Entry>, floor: nat)
    requires LowestUsable(es, floor).Some?
    ensures var low := LowestUsable(es, floor).value;
            Usable(es, low + 1) == Usable(es, floor) - {low}
  {
  }

  /** Moving the floor up to the least usable number changes nothing. */
  lemma UsableTight(es: seq<Entry>, floor: nat)
    requires LowestUsable(es, floor).Some?
    ensures Usable(es, LowestUsable(es, floor).value) == Usable(es, floor)
  {
  }

  lemma UsableShrinks(es: seq<Entry>, fs: seq<Entry>, floor: nat)
    requires Nums(fs) <= Nums(es)
    ensures |Usable(fs, floor)| <= |Usable(es, floor)|
  {
    SubsetSize(Usable(fs, floor), Usable(es, floor));
  }

  lemma SubsetSize<T>(a: set<T>, b: set<T>)
    requires a <= b
    ensures |a| <= |b|
  {
    assert b == a + (b - a);
  }

  /** There are no more numbers than stored entries, and as many when none repeats. */
  lemma {:induction false} NumsSize(es: seq<Entry>)
    ensures |Nums(es)| <= |es|
    ensures Increasing(es) ==> |Nums(es)| == |es|
  {
    if es != [] {
      NumsCons(es);
      NumsSize(es[1..]);
      if Increasing(es) {
        assert es[0].num !in Nums(es[1..]);
      }
    }
  }

  lemma UsableSize(es: seq<Entry>, floor: nat)
    ensures |Usable(es, floor)| <= |es|
  {
    NumsSize(es);
    SubsetSize(Usable(es, floor), Nums(es));
  }

  // -------------------------------------------------------------------------
  // The invariant
  // -------------------------------------------------------------------------

  /**
   What every reachable source side satisfies. `(capacity + 1) / 2` is the largest limit the peer
   ever granted, because the queue is only ever resized upwards to `2 * limit - 1`.
   */
  ghost predicate SourceInv(s: Source) {
    && s.initialized
    && 1 <= |s.scids.inner| <= s.scids.capacity
    && Increasing(s.scids.inner)
    && DistinctCids(s.scids.inner)
    && (forall i :: 0 <= i < |s.scids.inner| ==>
          s.scids.inner[i].num < s.nextSeq && (s.scids.inner[i].num >= 1 ==> s.scids.inner[i].token.Some?))
    && s.retirePriorTo <= s.nextSeq
    && 1 <= s.nextSeq
    && 2 <= s.limit && 2 * s.limit - 1 <= s.scids.capacity
    && s.scids.capacity % 2 == 1
    && |Usable(s.scids.inner, s.retirePriorTo)| <= (s.scids.capacity + 1) / 2
  }

  /** A space created by `new` or by `new_scid`: one source ID, numbered 0. */
  function FreshSource(cid: Cid, token: Option<nat>, path: Option<FourTuple>, limit: nat): (s: Source)
    ensures SourceInv(s)
  {
    var limit := if limit < 2 then 2 else limit;
    var s := Source(Deque([Entry(cid, 0, token, path)], 2 * limit - 1), 1, 0, limit, false, true);
    UsableSize(s.scids.inner, 0);
    s
  }

  /** One call on the source side. */
  datatype Call =
    | Issue(cid: Cid, token: Option<nat>, path: Option<FourTuple>, retireIfNeeded: bool)
    | Retire(num: nat, pktDcid: Cid)
    | SetLimit(v: nat)
    | BeginClosing

  function Apply(s: Source, c: Call): Source {
    match c
    case Issue(cid, token, path, retireIfNeeded) => NewScid(s, cid, token, path, retireIfNeeded).0
    case Retire(num, pktDcid) => RetireScid(s, num, pktDcid).0
    case SetLimit(v) => SetSourceLimit(s, v)
    case BeginClosing => s.(closing := true)
  }

  function Run(s: Source, calls: seq<Call>): Source
    decreases |calls|
  {
    if calls == [] then s else Run(Apply(s, calls[0]), calls[1..])
  }

  // -------------------------------------------------------------------------
  // Preservation, call by call
  // -------------------------------------------------------------------------

  lemma LowestIsStored(es: seq<Entry>, floor: nat)
    requires LowestUsable(es, floor).Some?
    ensures LowestUsable(es, floor).value in Nums(es)
    ensures |Usable(es, LowestUsable(es, floor).value + 1)| == |Usable(es, floor)| - 1
  {
    UsableRaise(es, floor);
  }

  lemma RaisedKeeps(s: Source)
    requires SourceInv(s)
    ensures SourceInv(Raised(s))
    ensures Raised(s) == s.(retirePriorTo := Raised(s).retirePriorTo)
    ensures s.retirePriorTo <= Raised(s).retirePriorTo
    ensures |s.scids.inner| >= s.limit && LowestUsable(s.scids.inner, s.retirePriorTo).Some? ==>
              |Usable(s.scids.inner, Raised(s).retirePriorTo)| < |Usable(s.scids.inner, s.retirePriorTo)|
  {
    var es, floor := s.scids.inner, s.retirePriorTo;
    if |es| >= s.limit && LowestUsable(es, floor).Some? {
      LowestIsStored(es, floor);
      var low := LowestUsable(es, floor).value;
      assert floor <= low < s.nextSeq;
      assert Raised(s) == s.(retirePriorTo := low + 1);
    }
  }

  /** Adding one ID to a state with a free usable slot. */
  lemma AddKeeps(s: Source, cid: Cid, token: Option<nat>, path: Option<FourTuple>)
    requires SourceInv(s)
    requires |Usable(s.scids.inner, s.retirePriorTo)| < (s.scids.capacity + 1) / 2
    ensures SourceInv(AddScid(s, cid, token, path).0)
  {
    var e := Entry(cid, s.nextSeq, token, path);
    if AddScid(s, cid, token, path).1.Ok? && AddScid(s, cid, token, path).1.value.0 {
      assert IndexOf(s.scids.inner, s.nextSeq) == |s.scids.inner|;
      InsertKeeps(s, e);
    }
  }

  lemma InsertKeeps(s: Source, e: Entry)
    requires SourceInv(s) && |s.scids.inner| < s.scids.capacity
    requires e.num == s.nextSeq && e.token.Some?
    requires forall i :: 0 <= i < |s.scids.inner| ==> s.scids.inner[i].cid != e.cid
    requires |Usable(s.scids.inner, s.retirePriorTo)| < (s.scids.capacity + 1) / 2
    ensures SourceInv(s.(scids := s.scids.(inner := s.scids.inner + [e]), nextSeq := s.nextSeq + 1))
  {
    hide Usable, Nums, Increasing, DistinctCids;
    UsableAppend(s.scids.inner, e, s.retirePriorTo);
    AppendInOrder(s.scids.inner, e);
  }

  lemma AppendInOrder(es: seq<Entry>, e: Entry)
    requires Increasing(es) && DistinctCids(es)
    requires forall i :: 0 <= i < |es| ==> es[i].num < e.num && es[i].cid != e.cid
    ensures Increasing(es + [e]) && DistinctCids(es + [e])
  {
  }

  lemma NewScidKeeps(s: Source, cid: Cid, token: Option<nat>, path: Option<FourTuple>, retireIfNeeded: bool)
    requires SourceInv(s)
    ensures SourceInv(NewScid(s, cid, token, path, retireIfNeeded).0)
    ensures s.retirePriorTo <= NewScid(s, cid, token, path, retireIfNeeded).0.retirePriorTo
    ensures s.nextSeq <= NewScid(s, cid, token, path, retireIfNeeded).0.nextSeq
  {
    RaisedKeeps(s);
    UsableSize(s.scids.inner, s.retirePriorTo);
    var full := |s.scids.inner| >= s.limit;
    if !(full && !retireIfNeeded) && !(full && LowestUsable(s.scids.inner, s.retirePriorTo).None?) {
      AddKeeps(Raised(s), cid, token, path);
    }
  }

  lemma RemoveAtKeepsOrder(es: seq<Entry>, i: nat)
    requires i < |es| && Increasing(es) && DistinctCids(es)
    ensures Increasing(es[..i] + es[i + 1..]) && DistinctCids(es[..i] + es[i + 1..])
  {
  }

  /** Removing the entry at `i` removes its number and nothing else. */
  lemma RemoveAtKeeps(es: seq<Entry>, i: nat)
    requires i < |es| && Increasing(es) && DistinctCids(es)
    ensures var fs := es[..i] + es[i + 1..];
            && Nums(fs) == Nums(es) - {es[i].num}
            && Pairs(fs) == Pairs(es) - {(es[i].num, es[i].cid)}
  {
    var a, x, b := es[..i], es[i], es[i + 1..];
    assert es == a + ([x] + b);
    NumsConcat(a, [x] + b);
    NumsConcat([x], b);
    NumsConcat(a, b);
    NumsSingle(x);
    assert x.num !in Nums(a) && x.num !in Nums(b);
    assert (x.num, x.cid) !in Pairs(a) && (x.num, x.cid) !in Pairs(b);
  }

  /** Removal from the queue: either nothing changes, or exactly the numbered entry leaves. */
  lemma RemoveKeeps(q: Deque, num: nat, allowEmpty: bool)
    requires Increasing(q.inner) && DistinctCids(q.inner) && |q.inner| >= 1
    requires q.Remove(num, allowEmpty).Ok?
    ensures var (t, r) := q.Remove(num, allowEmpty).value;
            && t.capacity == q.capacity && 1 <= |t.inner| <= |q.inner|
            && Increasing(t.inner) && DistinctCids(t.inner)
            && (r.None? ==> t == q)
            && (r.Some? ==> r.value.num == num && num in Nums(q.inner)
                            && Nums(t.inner) == Nums(q.inner) - {num}
                            && Pairs(t.inner) == Pairs(q.inner) - {(num, r.value.cid)})
  {
    var i := IndexOf(q.inner, num);
    if i < |q.inner| {
      RemoveAtKeepsOrder(q.inner, i);
      RemoveAtKeeps(q.inner, i);
    }
  }

  /** The state once an entry has left, before the floor is looked at. */
  lemma AfterRemoval(s: Source, num: nat)
    requires SourceInv(s) && s.scids.Remove(num, s.closing).Ok?
    ensures SourceInv(s.(scids := s.scids.Remove(num, s.closing).value.0))
  {
    RemoveKeeps(s.scids, num, s.closing);
    UsableShrinks(s.scids.inner, s.scids.Remove(num, s.closing).value.0.inner, s.retirePriorTo);
  }

  /** Tightening the floor to the least usable ID. */
  lemma TightenKeeps(s: Source)
    requires SourceInv(s) && LowestUsable(s.scids.inner, s.retirePriorTo).Some?
    ensures SourceInv(s.(retirePriorTo := LowestUsable(s.scids.inner, s.retirePriorTo).value))
  {
    UsableTight(s.scids.inner, s.retirePriorTo);
    LowestIsStored(s.scids.inner, s.retirePriorTo);
  }

  lemma RetireScidKeeps(s: Source, num: nat, pktDcid: Cid)
    requires SourceInv(s)
    ensures SourceInv(RetireScid(s, num, pktDcid).0)
    ensures s.retirePriorTo <= RetireScid(s, num, pktDcid).0.retirePriorTo
    ensures s.nextSeq == RetireScid(s, num, pktDcid).0.nextSeq
  {
    hide SourceInv, Nums;
    if num < s.nextSeq && s.scids.Remove(num, s.closing).Ok? {
      AfterRemoval(s, num);
      var t := s.(scids := s.scids.Remove(num, s.closing).value.0);
      if LowestUsable(t.scids.inner, s.retirePriorTo).Some? {
        TightenKeeps(t);
      }
    }
  }

  lemma SetLimitKeeps(s: Source, v: nat)
    requires SourceInv(s)
    ensures SourceInv(SetSourceLimit(s, v))
    ensures s.scids.capacity <= SetSourceLimit(s, v).scids.capacity
  {
  }

  /** Every call, accepted or not, keeps the invariant and moves the floor and the next number up only. */
  lemma ApplyKeeps(s: Source, c: Call)
    requires SourceInv(s)
    ensures SourceInv(Apply(s, c))
    ensures s.retirePriorTo <= Apply(s, c).retirePriorTo
    ensures s.nextSeq <= Apply(s, c).nextSeq
  {
    match c {
      case Issue(cid, token, path, retireIfNeeded) => NewScidKeeps(s, cid, token, path, retireIfNeeded);
      case Retire(num, pktDcid) => RetireScidKeeps(s, num, pktDcid);
      case SetLimit(v) => SetLimitKeeps(s, v);
      case BeginClosing =>
    }
  }

  // -------------------------------------------------------------------------
  // Whole runs
  // -------------------------------------------------------------------------

  /**
   Over every run, failing calls included: sequence numbers stay strictly increasing and below the
   next one, the advertised floor never goes down nor passes the next number, the queue is never
   empty nor over `2 * limit - 1`, and at most `limit` IDs are not asked to be retired, where
   `limit` is the largest one granted.
   */
  lemma {:induction false} RunKeepsInvariant(s: Source, calls: seq<Call>)
    requires SourceInv(s)
    ensures SourceInv(Run(s, calls))
    ensures s.retirePriorTo <= Run(s, calls).retirePriorTo <= Run(s, calls).nextSeq
    ensures s.nextSeq <= Run(s, calls).nextSeq
    decreases |calls|
  {
    if calls != [] {
      ApplyKeeps(s, calls[0]);
      RunKeepsInvariant(Apply(s, calls[0]), calls[1..]);
    }
  }

  /** The limits a run asks for, none lower than the one in force. */
  ghost predicate OnlyRaises(s: Source, calls: seq<Call>)
    decreases |calls|
  {
    calls == [] ||
    ((calls[0].SetLimit? ==> calls[0].v >= s.limit) && OnlyRaises(Apply(s, calls[0]), calls[1..]))
  }

  lemma CapacityFollowsLimit(s: Source, c: Call)
    requires s.scids.capacity == 2 * s.limit - 1 && s.limit <= USIZE_MAX / 2
    requires c.SetLimit? ==> c.v >= s.limit
    ensures Apply(s, c).scids.capacity == 2 * Apply(s, c).limit - 1 && Apply(s, c).limit <= USIZE_MAX / 2
  {
    hide LowestUsable, IndexOf, IndexOfCid;
  }

  /** When the peer's limit is only ever raised the bounds are those of the limit in force. */
  lemma {:induction false} RaisingRunBounds(s: Source, calls: seq<Call>)
    requires SourceInv(s) && s.scids.capacity == 2 * s.limit - 1 && s.limit <= USIZE_MAX / 2
    requires OnlyRaises(s, calls)
    ensures var t := Run(s, calls);
            && 1 <= |t.scids.inner| <= 2 * t.limit - 1
            && |Usable(t.scids.inner, t.retirePriorTo)| <= t.limit
    decreases |calls|
  {
    if calls != [] {
      ApplyKeeps(s, calls[0]);
      CapacityFollowsLimit(s, calls[0]);
      RaisingRunBounds(Apply(s, calls[0]), calls[1..]);
    }
  }

  /** A new limit leaves no more usable IDs than it allows exactly when it is ignored or at least their number. */
  lemma LimitKeptIff(s: Source, v: nat)
    requires |Usable(s.scids.inner, s.retirePriorTo)| <= s.limit
    ensures var t := SetSourceLimit(s, v);
            |Usable(t.scids.inner, t.retirePriorTo)| <= t.limit <==>
              v < 2 || |Usable(s.scids.inner, s.retirePriorTo)| <= if v <= USIZE_MAX / 2 then v else USIZE_MAX / 2
  {
  }

  /** Lowering the limit breaks that bound: three IDs stay usable under a limit of two. */
  lemma LoweredLimitKeepsOldIds(c0: Cid, c1: Cid, c2: Cid)
    requires c0 != c1 && c1 != c2 && c0 != c2
    ensures var s := FreshSource(c0, None, None, 3);
            var t := Run(s, [Issue(c1, Some(1), None, false), Issue(c2, Some(2), None, false), SetLimit(2)]);
            t.limit == 2 && |Usable(t.scids.inner, t.retirePriorTo)| == 3
  {
    hide LowestUsable, Usable, NewScid, RetireScid;
    var s := FreshSource(c0, None, None, 3);
    var e0, e1, e2 := Entry(c0, 0, None, None), Entry(c1, 1, Some(1), None), Entry(c2, 2, Some(2), None);
    var s1, s2 := s.(scids := Deque([e0, e1], 5), nextSeq := 2), s.(scids := Deque([e0, e1, e2], 5), nextSeq := 3);
    IssuesNext(s, e1);
    assert [e0] + [e1] == [e0, e1];
    IssuesNext(s1, e2);
    assert [e0, e1] + [e2] == [e0, e1, e2];
    var calls := [Issue(c1, Some(1), None, false), Issue(c2, Some(2), None, false), SetLimit(2)];
    assert calls[1..] == [Issue(c2, Some(2), None, false), SetLimit(2)];
    assert calls[1..][1..] == [SetLimit(2)];
    assert calls[1..][1..][1..] == [];
    var t := SetSourceLimit(s2, 2);
    assert Run(s, calls) == Run(s1, calls[1..]) == Run(s2, [SetLimit(2)]) == Run(t, []);
    ThreeUsable(e0, e1, e2);
  }

  lemma ThreeUsable(e0: Entry, e1: Entry, e2: Entry)
    requires e0.num == 0 && e1.num == 1 && e2.num == 2
    ensures |Usable([e0, e1, e2], 0)| == 3
  {
    var es := [e0, e1, e2];
    assert es[0] == e0 && es[1] == e1 && es[2] == e2;
    assert Usable(es, 0) == {0, 1, 2};
  }

  /** A space with room issues a fresh ID without further ado. */
  lemma IssuesNext(s: Source, e: Entry)
    requires s.initialized && |s.scids.inner| < s.limit && |s.scids.inner| < s.scids.capacity
    requires e.token.Some? && e.num == s.nextSeq
    requires forall i :: 0 <= i < |s.scids.inner| ==> s.scids.inner[i].cid != e.cid && s.scids.inner[i].num != e.num
    ensures Apply(s, Issue(e.cid, e.token, e.path, false)) ==
              s.(scids := s.scids.(inner := s.scids.inner + [e]), nextSeq := s.nextSeq + 1)
  {
    hide LowestUsable;
    assert IndexOfCid(s.scids.inner, e.cid) == |s.scids.inner| && IndexOf(s.scids.inner, e.num) == |s.scids.inner|;
  }

  // -------------------------------------------------------------------------
  // What failing calls leave behind
  // -------------------------------------------------------------------------

  /** The queue is full and a least usable ID exists, so `new_scid` moves the floor before it checks the rest. */
  predicate RaisesFloor(s: Source, retireIfNeeded: bool) {
    s.initialized && |s.scids.inner| >= s.limit && retireIfNeeded &&
    LowestUsable(s.scids.inner, s.retirePriorTo).Some?
  }

  /** A call that adds nothing (an error, or a duplicate ID) leaves the state alone exactly when it did not raise the floor. */
  lemma UselessCallKeepsStateIff(s: Source, cid: Cid, token: Option<nat>, path: Option<FourTuple>, retireIfNeeded: bool)
    requires SourceInv(s)
    requires var r := NewScid(s, cid, token, path, retireIfNeeded).1; r.Err? || !r.value.0
    ensures NewScid(s, cid, token, path, retireIfNeeded).0 == s <==> !RaisesFloor(s, retireIfNeeded)
  {
    RaisedKeeps(s);
  }

  /**
   A RETIRE_CONNECTION_ID for a stored ID that is not the last one is accepted exactly when it did
   not arrive on that ID and some other stored ID is still usable.
   */
  lemma RetireAcceptedIff(s: Source, i: nat, pktDcid: Cid)
    requires SourceInv(s) && i < |s.scids.inner| && |s.scids.inner| >= 2
    ensures var e := s.scids.inner[i];
            var (t, r) := RetireScid(s, e.num, pktDcid);
            && (r.Ok? <==> e.cid != pktDcid && Usable(s.scids.inner, s.retirePriorTo) - {e.num} != {})
            && Nums(t.scids.inner) == Nums(s.scids.inner) - {e.num}
            && Pairs(t.scids.inner) == Pairs(s.scids.inner) - {(e.num, e.cid)}
  {
    var e := s.scids.inner[i];
    assert IndexOf(s.scids.inner, e.num) == i;
    RemoveKeeps(s.scids, e.num, s.closing);
    var (q, r) := s.scids.Remove(e.num, s.closing).value;
    assert r == Some(e);
    assert Usable(q.inner, s.retirePriorTo) == Usable(s.scids.inner, s.retirePriorTo) - {e.num};
  }

  /** Entry `k` holds the least number at or above the floor of a sorted list. */
  lemma LowestOf(es: seq<Entry>, floor: nat, k: nat)
    requires Increasing(es) && k < |es| && es[k].num >= floor && (k > 0 ==> es[k - 1].num < floor)
    ensures LowestUsable(es, floor) == Some(es[k].num)
  {
    assert es[k].num in Usable(es, floor);
    if k > 0 {
      assert forall i :: 0 <= i < k - 1 ==> es[i].num < es[k - 1].num;
    }
    assert forall i :: 0 <= i < |es| && es[i].num >= floor ==> es[k].num <= es[i].num;
  }

  /** Two IDs under a limit of two. */
  function TwoIds(c0: Cid, c1: Cid): Source {
    Source(Deque([Entry(c0, 0, None, None), Entry(c1, 1, Some(1), None)], 3), 2, 0, 2, false, true)
  }

  /** Three IDs under a limit of two, with the removal of those below `floor` requested. */
  function ThreeIds(c0: Cid, c1: Cid, c2: Cid, floor: nat): Source {
    Source(Deque([Entry(c0, 0, None, None), Entry(c1, 1, Some(1), None), Entry(c2, 2, Some(2), None)], 3),
           3, floor, 2, false, true)
  }

  lemma FirstIssue(c0: Cid, c1: Cid, retireIfNeeded: bool)
    requires c0 != c1
    ensures NewScid(FreshSource(c0, None, None, 2), c1, Some(1), None, retireIfNeeded) == (TwoIds(c0, c1), Ok((true, 1)))
  {
    var es := FreshSource(c0, None, None, 2).scids.inner;
    assert IndexOfCid(es, c1) == 1 && IndexOf(es, 1) == 1;
    assert es + [Entry(c1, 1, Some(1), None)] == TwoIds(c0, c1).scids.inner;
  }

  lemma RenewalAdds(c0: Cid, c1: Cid, c2: Cid)
    requires c2 != c0 && c2 != c1
    ensures NewScid(TwoIds(c0, c1), c2, Some(2), None, true) == (ThreeIds(c0, c1, c2, 1), Ok((true, 2)))
  {
    var es := TwoIds(c0, c1).scids.inner;
    LowestOf(es, 0, 0);
    assert IndexOfCid(es, c2) == 2 && IndexOf(es, 2) == 2;
    assert es + [Entry(c2, 2, Some(2), None)] == ThreeIds(c0, c1, c2, 1).scids.inner;
  }

  /** A renewal the queue has no room for still moves the floor. */
  lemma RenewalFails(c0: Cid, c1: Cid, c2: Cid, c3: Cid, floor: nat)
    requires c3 != c0 && c3 != c1 && c3 != c2 && 1 <= floor <= 2
    ensures NewScid(ThreeIds(c0, c1, c2, floor), c3, Some(3), None, true) ==
              (ThreeIds(c0, c1, c2, floor + 1), Err(IdLimit))
  {
    var es := ThreeIds(c0, c1, c2, floor).scids.inner;
    LowestOf(es, floor, floor);
    assert IndexOfCid(es, c3) == 3;
    assert IndexOf(es, 3) == 3;
  }

  /** With the floor past every stored ID the retirement of ID 0 is refused. */
  lemma NothingUsableLeft(c0: Cid, c1: Cid, c2: Cid)
    requires c0 != c1 && c0 != c2 && c1 != c2
    ensures RetireScid(ThreeIds(c0, c1, c2, 3), 0, c1).1.Err?
  {
    var s := ThreeIds(c0, c1, c2, 3);
    UsableSize(s.scids.inner, 3);
    assert Usable(s.scids.inner, 3) == {};
    RetireAcceptedIff(s, 0, c1);
  }

  /**
   Reachable trouble: with a limit of two, two renewals that fail for lack of room push the floor past
   every stored ID, and then the peer's rightful retirement of ID 0 is answered with an error.
   */
  lemma FailedRenewalsBlockRetirement(c0: Cid, c1: Cid, c2: Cid, c3: Cid)
    requires c0 != c1 && c0 != c2 && c1 != c2 && c3 != c0 && c3 != c1 && c3 != c2
    ensures var s1 := NewScid(FreshSource(c0, None, None, 2), c1, Some(1), None, true).0;
            var s2 := NewScid(s1, c2, Some(2), None, true).0;
            var s3 := NewScid(s2, c3, Some(3), None, true).0;
            var s4 := NewScid(s3, c3, Some(3), None, true).0;
            RetireScid(s4, 0, c1).1.Err?
  {
    FirstIssue(c0, c1, true);
    RenewalAdds(c0, c1, c2);
    RenewalFails(c0, c1, c2, c3, 1);
    RenewalFails(c0, c1, c2, c3, 2);
    NothingUsableLeft(c0, c1, c2);
  }

  // -------------------------------------------------------------------------
  // Spaces the peer created
  // -------------------------------------------------------------------------

  /** The source half of a space created by `new_dcid`: nothing issued yet, next number 0. */
  function PeerCreatedSource(limit: nat): Source {
    var limit := if limit < 2 then 2 else limit;
    Source(Deque([Entry([], 0, None, None)], 2 * limit - 1), 0, 0, limit, false, false)
  }

  /** A call that issues a new ID. */
  predicate Adding(s: Source, c: Call) {
    c.Issue? && var r := NewScid(s, c.cid, c.token, c.path, c.retireIfNeeded).1; r.Ok? && r.value.0
  }

  /** The sequence number it is given. */
  function Number(s: Source, c: Call): nat
    requires Adding(s, c)
  {
    NewScid(s, c.cid, c.token, c.path, c.retireIfNeeded).1.value.1
  }

  /** How many calls of a run issue a new ID. */
  function Added(s: Source, calls: seq<Call>): nat
    decreases |calls|
  {
    if calls == [] then 0 else (if Adding(s, calls[0]) then 1 else 0) + Added(Apply(s, calls[0]), calls[1..])
  }

  /** The first ID of a peer-created space takes number 0 and does not move the next number. */
  lemma StepCounts(s: Source, c: Call)
    ensures var t := Apply(s, c);
            && t.nextSeq == s.nextSeq + (if Adding(s, c) && s.initialized then 1 else 0)
            && (t.initialized <==> s.initialized || Adding(s, c))
    ensures Adding(s, c) ==> Number(s, c) == if s.initialized then s.nextSeq else 0
  {
    hide LowestUsable, IndexOf, IndexOfCid;
  }

  lemma {:induction false} RunCounts(s: Source, calls: seq<Call>)
    ensures var t, n := Run(s, calls), Added(s, calls);
            && t.nextSeq == s.nextSeq + n - (if !s.initialized && n > 0 then 1 else 0)
            && (t.initialized <==> s.initialized || n > 0)
    decreases |calls|
  {
    hide Apply, Adding;
    if calls != [] {
      StepCounts(s, calls[0]);
      RunCounts(Apply(s, calls[0]), calls[1..]);
    }
  }

  /**
   Whatever happens between them, failing calls and retirements included, two issued IDs of a space get
   different sequence numbers exactly when they are not the first two of a space the peer created.
   */
  lemma TwoIssuesDistinctIff(s: Source, a: Call, between: seq<Call>, b: Call)
    requires !s.initialized ==> s.nextSeq == 0
    requires Adding(s, a) && Adding(Run(Apply(s, a), between), b)
    ensures var m, n := Number(s, a), Number(Run(Apply(s, a), between), b);
            && m <= n
            && (m != n <==> s.initialized || Added(Apply(s, a), between) > 0)
  {
    hide Apply, Adding, Number, Run, Added;
    StepCounts(s, a);
    RunCounts(Apply(s, a), between);
    StepCounts(Run(Apply(s, a), between), b);
  }

  /** Of the first two IDs of such a space the second replaces the first. */
  lemma SecondIssueReplaces(limit: nat, c0: Cid, t0: Option<nat>, c1: Cid, t1: Option<nat>, p0: Option<FourTuple>, p1: Option<FourTuple>)
    requires c0 != c1
    ensures var s := NewScid(PeerCreatedSource(limit), c0, t0, p0, false).0;
            NewScid(s, c1, t1, p1, false) == (s.(scids := s.scids.(inner := [Entry(c1, 0, t1, p1)]), nextSeq := 1), Ok((true, 0)))
  {
    var s := NewScid(PeerCreatedSource(limit), c0, t0, p0, false).0;
    var es := s.scids.inner;
    assert es == [Entry(c0, 0, t0, p0)];
    assert IndexOfCid(es, c1) == 1 && IndexOf(es, 0) == 0;
    assert es[0 := Entry(c1, 0, t1, p1)] == [Entry(c1, 0, t1, p1)];
  }
}
