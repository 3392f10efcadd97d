/**
 `RangeSet` and its two representations (quiche/src/ranges.rs), mutated in place. The vector and the
 ordered map use very different insertion algorithms; both are proved against `RangeSpec`.
 */
module RangeSets {
  import opened Common
  import opened RangeSpec

  const MAX_INLINE_CAPACITY := 4
  const MIN_TO_INLINE := 2

  // -------------------------------------------------------------------------
  // The vector
  // -------------------------------------------------------------------------

  /** A full vector cannot take an item below all its ranges: the eviction would need position -1. */
  ghost predicate InlinePanics(rs: seq<Range>, capacity: nat, s: nat, e: nat) {
    |rs| == capacity && (capacity == 0 || e < rs[0].start)
  }

  /** The item touches the range at `pos`, the first that does not end below it. */
  lemma TouchingStep(rs: seq<Range>, capacity: nat, pos: nat, s: nat, e: nat)
    requires Canonical(rs) && pos < |rs| && s < e && s <= rs[pos].end && rs[pos].start <= e
    requires forall i :: 0 <= i < pos ==> rs[i].end < s
    ensures InsertBounded(rs, capacity, s, e) ==
              rs[..pos] + InsertRange(rs[pos + 1..], Min(s, rs[pos].start), Max(e, rs[pos].end))
    ensures e <= rs[pos].end ==>
              InsertBounded(rs, capacity, s, e) == rs[..pos] + ([Range(Min(s, rs[pos].start), rs[pos].end)] + rs[pos + 1..])
  {
    assert Touches(rs, s, e);
    InsertSkips(rs, pos, s, e);
    assert rs[pos..][1..] == rs[pos + 1..];
  }

  class InlineRangeSet {
    var inner: seq<Range>
    const capacity: nat

    constructor (inner: seq<Range>, capacity: nat)
      ensures this.inner == inner && this.capacity == capacity
    {
      this.inner := inner;
      this.capacity := capacity;
    }

    method Insert(s: nat, e: nat)
      requires s < e && Canonical(inner) && |inner| <= capacity && !InlinePanics(inner, capacity, s, e)
      modifies this
      ensures inner == InsertBounded(old(inner), capacity, s, e)
    {
      hide InsertBounded, InsertRange;
      ghost var rs := inner;
      var pos := 0;
      while pos < |inner| && s > inner[pos].end
        invariant 0 <= pos <= |inner| && inner == rs
        invariant forall i :: 0 <= i < pos ==> inner[i].end < s
      {
        pos := pos + 1;
      }
      if pos == |inner| || e < inner[pos].start {
        InsertGap(pos, s, e);
        return;
      }
      TouchingStep(rs, capacity, pos, s, e);
      var r := inner[pos];
      inner := inner[pos := Range(Min(s, r.start), Max(e, r.end))];
      assert inner[..pos] == rs[..pos] && inner[pos + 1..] == rs[pos + 1..];
      if e <= r.end {
        assert inner == rs[..pos] + ([inner[pos]] + rs[pos + 1..]);
        return;
      }
      MergeFollowing(pos);
    }

    /** The item fits between two ranges or at the end; a full vector first drops its lowest range. */
    method InsertGap(pos: nat, s: nat, e: nat)
      requires s < e && Canonical(inner) && |inner| <= capacity && pos <= |inner|
      requires !InlinePanics(inner, capacity, s, e)
      requires forall i :: 0 <= i < pos ==> inner[i].end < s
      requires pos < |inner| ==> e < inner[pos].start
      modifies this
      ensures inner == InsertBounded(old(inner), capacity, s, e)
    {
      ghost var rs := inner;
      assert !Touches(rs, s, e);
      InsertSkips(rs, pos, s, e);
      var at := pos;
      if |inner| == capacity {
        inner := inner[1..];
        at := pos - 1;
        InsertSkips(rs[1..], at, s, e);
        assert rs[1..][at..] == rs[pos..];
      }
      inner := inner[..at] + [Range(s, e)] + inner[at..];
    }

    /** The range at `pos` grew upwards: absorb the ranges behind it that it now touches. */
    method MergeFollowing(pos: nat)
      requires pos < |inner|
      requires forall j :: pos < j < |inner| ==> inner[pos].start <= inner[j].start <= inner[j].end
      modifies this
      ensures inner == old(inner[..pos] + InsertRange(inner[pos + 1..], inner[pos].start, inner[pos].end))
    {
      ghost var rs := inner;
      var start: nat, end: nat := inner[pos].start, inner[pos].end;
      while pos + 1 < |inner| && end >= inner[pos + 1].start
        invariant pos < |inner| && inner[..pos] == rs[..pos] && inner[pos] == Range(start, end)
        invariant forall j :: pos < j < |inner| ==> start <= inner[j].start <= inner[j].end
        invariant InsertRange(inner[pos + 1..], start, end) == InsertRange(rs[pos + 1..], start, rs[pos].end)
        decreases |inner|
      {
        var next := inner[pos + 1];
        ghost var tail := inner[pos + 1..];
        assert tail[0] == next && tail[1..] == inner[pos + 2..];
        end := Max(next.end, end);
        inner := inner[..pos] + [Range(start, end)] + inner[pos + 2..];
        assert inner[pos + 1..] == tail[1..];
      }
      assert inner == inner[..pos] + [inner[pos]] + inner[pos + 1..];
    }

    method RemoveUntil(largest: nat)
      requires Canonical(inner)
      modifies this
      ensures inner == DropUntil(old(inner), largest)
    {
      while inner != [] && largest >= inner[0].end
        invariant DropUntil(inner, largest) == DropUntil(old(inner), largest)
        decreases |inner|
      {
        inner := inner[1..];
      }
      if inner != [] {
        var r := inner[0];
        var s := Max(largest + 1, r.start);
        inner := if s == r.end then inner[1..] else [Range(s, r.end)] + inner[1..];
      }
    }
  }

  // -------------------------------------------------------------------------
  // The ordered map
  // -------------------------------------------------------------------------

  /** Start to end, with the same shape as a canonical list. */
  ghost predicate MapCanonical(m: map<nat, nat>) {
    && (forall k :: k in m ==> k < m[k])
    && (forall j, k :: j in m && k in m && j < k ==> m[j] < k)
  }

  ghost predicate MapCovers(m: map<nat, nat>, x: int) {
    exists k :: k in m && k <= x < m[k]
  }

  lemma GreatestKeyExists(s: set<nat>)
    requires s != {}
    ensures exists k :: k in s && forall j :: j in s ==> j <= k
  {
    var x :| x in s;
    var above := set j | j in s && j > x;
    assert x in s && x !in above;
    var m := x;
    if above != {} {
      GreatestKeyExists(above);
      m :| m in above && forall j :: j in above ==> j <= m;
    }
    forall j | j in s ensures j <= m {
      assert j in above <==> j > x;
    }
    assert m in s;
  }

  function Least(s: set<nat>): (k: nat)
    requires s != {}
    ensures k in s && forall j :: j in s ==> k <= j
  {
    LeastExists(s);
    var k :| k in s && forall j :: j in s ==> k <= j;
    k
  }

  function Greatest(s: set<nat>): (k: nat)
    requires s != {}
    ensures k in s && forall j :: j in s ==> j <= k
  {
    GreatestKeyExists(s);
    var k :| k in s && forall j :: j in s ==> j <= k;
    k
  }

  /** The entries in key order (`iter`). */
  function Listing(m: map<nat, nat>): seq<Range>
    decreases |m|
  {
    if m == map[] then []
    else
      var k := Least(m.Keys);
      assert |m - {k}| < |m| by { Smaller(m, k); }
      [Range(k, m[k])] + Listing(m - {k})
  }

  lemma Smaller(m: map<nat, nat>, k: nat)
    requires k in m
    ensures |m - {k}| == |m| - 1
  {
    assert (m - {k}).Keys == m.Keys - {k};
    assert |m.Keys - {k}| == |m.Keys| - 1;
    assert |m| == |m.Keys| && |m - {k}| == |(m - {k}).Keys|;
  }

  /** The listing of a canonical map is canonical, as long as the map, and covers the same values. */
  lemma {:induction false} ListingFaithful(m: map<nat, nat>)
    requires MapCanonical(m)
    ensures Canonical(Listing(m)) && |Listing(m)| == |m|
    ensures forall x :: Covers(Listing(m), x) <==> MapCovers(m, x)
    ensures m != map[] ==> Listing(m)[0] == Range(Least(m.Keys), m[Least(m.Keys)])
    decreases |m|
  {
    if m != map[] {
      var k := Least(m.Keys);
      var rest := m - {k};
      Dropped(m, k);
      ListingFaithful(rest);
      assert rest != map[] ==> Least(rest.Keys) in rest;
      CanonicalCons(Range(k, m[k]), Listing(rest));
      forall x ensures Covers(Listing(m), x) <==> MapCovers(m, x) {
        CoversCons(Range(k, m[k]), Listing(rest), x);
        CoversWithout(m, k, x);
      }
    }
  }

  lemma CoversWithout(m: map<nat, nat>, k: nat, x: int)
    requires k in m
    ensures MapCovers(m, x) <==> k <= x < m[k] || MapCovers(m - {k}, x)
  {
    var rest := m - {k};
    if MapCovers(m, x) {
      var j :| j in m && j <= x < m[j];
      assert j == k || (j in rest && rest[j] == m[j]);
    }
    if MapCovers(rest, x) {
      var j :| j in rest && j <= x < rest[j];
      assert j in m && m[j] == rest[j];
    }
  }

  /** Two canonical maps that cover the same values list the same ranges. */
  lemma ListingDetermined(m: map<nat, nat>, rs: seq<Range>)
    requires MapCanonical(m) && Canonical(rs)
    requires forall x :: MapCovers(m, x) <==> Covers(rs, x)
    ensures Listing(m) == rs
  {
    ListingFaithful(m);
    CanonicalUnique(Listing(m), rs);
  }

  /** `range_overlaps`: an end of `other` lies within `r`, the border included. */
  predicate RangeOverlaps(r: Range, other: Range) {
    || (other.start >= r.start && other.start <= r.end)
    || (other.end >= r.start && other.end <= r.end)
  }

  predicate Contains(r: Range, x: nat) {
    r.start <= x < r.end
  }

  /** The last entry that starts at or before `x`. */
  function PrevTo(m: map<nat, nat>, x: nat): (r: Option<nat>)
    ensures r.Some? ==> r.value in m && r.value <= x && forall k :: k in m && k <= x ==> k <= r.value
    ensures r.None? ==> forall k :: k in m ==> k > x
  {
    var low := set k | k in m && k <= x;
    assert forall k :: k in m && k <= x ==> k in low;
    if low == {} then None else Some(Greatest(low))
  }

  /** The first entry that starts at or after `x`. */
  function NextTo(m: map<nat, nat>, x: nat): (r: Option<nat>)
    ensures r.Some? ==> r.value in m && r.value >= x && forall k :: k in m && k >= x ==> k >= r.value
    ensures r.None? ==> forall k :: k in m ==> k < x
  {
    var high := set k | k in m && k >= x;
    assert forall k :: k in m && k >= x ==> k in high;
    if high == {} then None else Some(Least(high))
  }

  ghost predicate SubMap(a: map<nat, nat>, b: map<nat, nat>) {
    forall k :: k in a ==> k in b && a[k] == b[k]
  }

  /** Does the item touch an entry of the map? */
  ghost predicate MapTouches(m: map<nat, nat>, s: nat, e: nat) {
    exists k :: k in m && s <= m[k] && k <= e
  }

  /** Is `x` in the map or in the item? */
  ghost predicate InEither(m: map<nat, nat>, s: nat, e: nat, x: int) {
    MapCovers(m, x) || s <= x < e
  }

  /** The entries left in `m` and the grown item `st..en` together cover the old set and the item. */
  ghost predicate SameUnion(m0: map<nat, nat>, s: nat, e: nat, m: map<nat, nat>, st: nat, en: nat) {
    forall x :: InEither(m, st, en, x) <==> InEither(m0, s, e, x)
  }

  /** What the merging part of `insert` knows about the entries left around the grown item. */
  ghost predicate Merging(m0: map<nat, nat>, m: map<nat, nat>, s: nat, e: nat, st: nat, en: nat) {
    && SubMap(m, m0) && st <= s < e <= en
    && (forall k :: k in m && k < st ==> m[k] < st)
    && (forall k :: k in m && k >= st ==> k > s && (en > e ==> k > en))
    && (m == m0 ==> st == s && en == e)
    && (m != m0 ==> |m| < |m0| && MapTouches(m0, s, e))
  }

  /** Absorbing the touching entry `k` into the grown item changes nothing of what is covered. */
  lemma Absorb(m0: map<nat, nat>, s: nat, e: nat, m: map<nat, nat>, k: nat, st: nat, en: nat)
    requires SameUnion(m0, s, e, m, st, en)
    requires k in m && k < m[k] && st < en && st <= m[k] && k <= en
    ensures SameUnion(m0, s, e, m - {k}, Min(st, k), Max(en, m[k]))
  {
    forall x ensures InEither(m - {k}, Min(st, k), Max(en, m[k]), x) <==> InEither(m, st, en, x) {
      AbsorbAt(m, k, st, en, x);
    }
  }

  lemma AbsorbAt(m: map<nat, nat>, k: nat, st: nat, en: nat, x: int)
    requires k in m && k < m[k] && st < en && st <= m[k] && k <= en
    ensures InEither(m - {k}, Min(st, k), Max(en, m[k]), x) <==> InEither(m, st, en, x)
  {
    CoversWithout(m, k, x);
  }

  /** The preceding entry overlaps the item. */
  lemma MergePrev(m0: map<nat, nat>, s: nat, e: nat, k: nat)
    requires MapCanonical(m0) && s < e && k in m0 && k <= s <= m0[k]
    requires forall j :: j in m0 && j <= s ==> j <= k
    ensures Merging(m0, m0 - {k}, s, e, k, Max(e, m0[k])) && MapCanonical(m0 - {k})
    ensures SameUnion(m0, s, e, m0 - {k}, k, Max(e, m0[k]))
  {
    Absorb(m0, s, e, m0, k, s, e);
    Dropped(m0, k);
    assert MapTouches(m0, s, e);
  }

  /** No preceding entry overlaps the item. */
  lemma NoPrev(m0: map<nat, nat>, s: nat, e: nat, prev: Option<nat>)
    requires MapCanonical(m0) && s < e
    requires prev.Some? ==> prev.value in m0 && m0[prev.value] < s && forall k :: k in m0 && k <= s ==> k <= prev.value
    requires prev.None? ==> forall k :: k in m0 ==> k > s
    ensures Merging(m0, m0, s, e, s, e) && SameUnion(m0, s, e, m0, s, e)
  {
    forall j | j in m0 && j <= s ensures m0[j] < s {
      assert j == prev.value || j < prev.value;
    }
  }

  /** Dropping an entry keeps the rest as it is. */
  lemma Dropped(m: map<nat, nat>, k: nat)
    requires MapCanonical(m) && k in m
    ensures MapCanonical(m - {k}) && SubMap(m - {k}, m) && |m - {k}| == |m| - 1
    ensures forall j :: j in m - {k} ==> j in m && j != k && (j < k ==> m[j] < k) && (j > k ==> j > m[k])
  {
    Smaller(m, k);
  }

  /** The first entry behind the grown item touches the item. */
  lemma MergeNext(m0: map<nat, nat>, m: map<nat, nat>, s: nat, e: nat, st: nat, en: nat, k: nat)
    requires Merging(m0, m, s, e, st, en) && MapCanonical(m) && SameUnion(m0, s, e, m, st, en)
    requires k in m && st <= k <= e && forall j :: j in m && j >= st ==> j >= k
    ensures Merging(m0, m - {k}, s, e, st, Max(en, m[k])) && MapCanonical(m - {k}) && |m - {k}| < |m|
    ensures SameUnion(m0, s, e, m - {k}, st, Max(en, m[k]))
  {
    Absorb(m0, s, e, m, k, st, en);
    Dropped(m, k);
    assert k in m0 && s <= m0[k] && k <= e;
    assert MapTouches(m0, s, e);
  }

  class BTreeRangeSet {
    var inner: map<nat, nat>
    const capacity: nat

    constructor (inner: map<nat, nat>, capacity: nat)
      ensures this.inner == inner && this.capacity == capacity
    {
      this.inner := inner;
      this.capacity := capacity;
    }

    /** Absorbs the preceding entry if it overlaps the item. */
    method MergePreceding(s: nat, e: nat) returns (st: nat, en: nat)
      requires s < e && MapCanonical(inner)
      modifies this
      ensures Merging(old(inner), inner, s, e, st, en) && SameUnion(old(inner), s, e, inner, st, en)
      ensures MapCanonical(inner)
    {
      st, en := s, e;
      var prev := PrevTo(inner, st);
      if prev.Some? && RangeOverlaps(Range(prev.value, inner[prev.value]), Range(s, e)) {
        var k := prev.value;
        MergePrev(inner, s, e, k);
        st, en := Min(st, k), Max(en, inner[k]);
        inner := inner - {k};
      } else {
        NoPrev(inner, s, e, prev);
      }
    }

    /** Absorbs the following entries while they overlap the item. */
    method MergeFollowing(s: nat, e: nat, st0: nat, en0: nat, ghost m0: map<nat, nat>) returns (st: nat, en: nat)
      requires Merging(m0, inner, s, e, st0, en0) && SameUnion(m0, s, e, inner, st0, en0) && MapCanonical(inner)
      modifies this
      ensures Merging(m0, inner, s, e, st, en) && SameUnion(m0, s, e, inner, st, en) && MapCanonical(inner)
      ensures forall k :: k in inner && k >= st ==> k > en
    {
      var item := Range(s, e);
      st, en := st0, en0;
      while true
        invariant Merging(m0, inner, s, e, st, en) && SameUnion(m0, s, e, inner, st, en) && MapCanonical(inner)
        decreases |inner|
      {
        var next := NextTo(inner, st);
        if next.None? {
          return;
        }
        var k := next.value;
        var r := Range(k, inner[k]);
        var contained := Contains(item, r.start) && Contains(item, r.end);
        if !contained && !RangeOverlaps(r, item) {
          return;
        }
        MergeNext(m0, inner, s, e, st, en, k);
        if !contained {
          st, en := Min(st, r.start), Max(en, r.end);
        }
        inner := inner - {k};
      }
    }

    method Insert(s: nat, e: nat)
      requires s < e && MapCanonical(inner) && |inner| <= capacity && 0 < capacity
      modifies this
      ensures MapCanonical(inner) && |inner| == |Listing(inner)|
      ensures Listing(inner) == InsertBounded(Listing(old(inner)), capacity, s, e)
    {
      ghost var m0 := inner;
      var st, en := MergePreceding(s, e);
      st, en := MergeFollowing(s, e, st, en, m0);
      InsertedCovers(m0, inner, s, e, st, en, capacity);
      if |inner| >= capacity {
        inner := inner - {Least(inner.Keys)};
      }
      inner := inner[st := en];
      ListingShape(inner);
    }

    method RemoveUntil(largest: nat)
      requires MapCanonical(inner) && |inner| <= capacity && 0 < capacity && largest < U64_MAX
      modifies this
      ensures MapCanonical(inner)
      ensures Listing(inner) == DropUntil(Listing(old(inner)), largest)
    {
      hide Listing, MapCanonical, DropUntil, LowCount;
      ghost var rs := Listing(inner);
      ListingShape(inner);
      var n := LowCount(Listing(inner), largest);
      var ranges := Listing(inner)[..n];
      if n == 0 {
        DropNothing(rs, largest);
        return;
      }
      DropLow(rs, largest);
      for i := 0 to n
        invariant MapCanonical(inner) && |inner| <= capacity
        invariant i < n ==> Listing(inner) == rs[i..]
        invariant i == n ==> Listing(inner) == DropUntil(rs, largest)
      {
        SuffixSplit(rs, i);
        ListingShape(inner);
        TrimFirst(ranges[i], largest, rs[i + 1..]);
        assert i < n - 1 ==> rs[i].end < rs[i + 1].start <= largest;
      }
    }

    /** Takes the first range out and puts back what lies above `largest`, if anything. */
    method TrimFirst(r: Range, largest: nat, ghost rest: seq<Range>)
      requires MapCanonical(inner) && |inner| <= capacity && 0 < capacity && largest < U64_MAX
      requires inner != map[] && Listing(inner) == [r] + rest && r.start <= largest && Canonical([r] + rest)
      modifies this
      ensures MapCanonical(inner) && |inner| <= capacity
      ensures Listing(inner) == if r.end > largest + 1 then [Range(largest + 1, r.end)] + rest else rest
    {
      hide Listing, MapCanonical;
      Remove(r, rest);
      if r.end > largest + 1 {
        assert rest != [] ==> ([r] + rest)[0] == r && ([r] + rest)[1] == rest[0];
        InsertBelow(largest + 1, r.end, rest);
      }
    }

    /** Inserts an item below every range of a map with a free slot. */
    method InsertBelow(s: nat, e: nat, ghost rest: seq<Range>)
      requires MapCanonical(inner) && |inner| < capacity && Listing(inner) == rest
      requires Canonical(rest) && |rest| == |inner| && s < e && (rest != [] ==> e < rest[0].start)
      modifies this
      ensures MapCanonical(inner) && |inner| <= capacity && Listing(inner) == [Range(s, e)] + rest
    {
      InsertInFront(rest, s, e);
      Insert(s, e);
    }

    /** Takes the first range out. */
    method Remove(r: Range, ghost rest: seq<Range>)
      requires MapCanonical(inner) && inner != map[] && Listing(inner) == [r] + rest
      modifies this
      ensures MapCanonical(inner) && |inner| < old(|inner|)
      ensures Listing(inner) == rest && |rest| == |inner| && Canonical(rest)
    {
      assert ([r] + rest)[1..] == rest;
      ListingTail(inner);
      inner := inner - {r.start};
      ListingShape(inner);
    }
  }

  lemma SuffixSplit(rs: seq<Range>, i: nat)
    requires Canonical(rs) && i < |rs|
    ensures rs[i..] == [rs[i]] + rs[i + 1..] && Canonical(rs[i..])
  {
  }

  lemma ListingShape(m: map<nat, nat>)
    requires MapCanonical(m)
    ensures Canonical(Listing(m)) && |Listing(m)| == |m|
  {
    ListingFaithful(m);
  }

  /** How many leading ranges start at or below `largest`. */
  function LowCount(rs: seq<Range>, largest: nat): (n: nat)
    ensures n <= |rs|
    ensures forall i :: 0 <= i < n ==> rs[i].start <= largest
    ensures n < |rs| ==> rs[n].start > largest
  {
    if rs == [] || rs[0].start > largest then 0 else 1 + LowCount(rs[1..], largest)
  }

  /** Nothing to drop when every range starts above `largest`. */
  lemma DropNothing(rs: seq<Range>, largest: nat)
    requires Canonical(rs) && (rs != [] ==> rs[0].start > largest)
    ensures DropUntil(rs, largest) == rs
  {
    if rs != [] {
      assert rs == [rs[0]] + rs[1..];
    }
  }

  /** Ranges that end by `largest` are dropped whole. */
  lemma {:induction false} DropSkips(rs: seq<Range>, n: nat, largest: nat)
    requires n <= |rs| && forall i :: 0 <= i < n ==> rs[i].end <= largest
    ensures DropUntil(rs, largest) == DropUntil(rs[n..], largest)
    decreases n
  {
    if n == 0 {
      assert rs[0..] == rs;
    } else {
      assert forall i :: 0 <= i < n - 1 ==> rs[1..][i] == rs[i + 1];
      DropSkips(rs[1..], n - 1, largest);
      assert rs[1..][n - 1..] == rs[n..];
    }
  }

  /** Only the last low range can reach past `largest`; what is left of it goes in front of the rest. */
  lemma DropLow(rs: seq<Range>, largest: nat)
    requires Canonical(rs) && LowCount(rs, largest) > 0
    ensures var n := LowCount(rs, largest);
            && (rs[n - 1].end > largest + 1 ==> DropUntil(rs, largest) == [Range(largest + 1, rs[n - 1].end)] + rs[n..])
            && (rs[n - 1].end <= largest + 1 ==> DropUntil(rs, largest) == rs[n..])
  {
    hide DropUntil, LowCount;
    var n := LowCount(rs, largest);
    var tail := rs[n - 1..];
    DropSkips(rs, n - 1, largest);
    assert tail[0] == rs[n - 1] && tail[1..] == rs[n..];
    DropNothing(rs[n..], largest);
    DropFirst(tail, largest);
  }

  lemma DropFirst(rs: seq<Range>, largest: nat)
    requires Canonical(rs) && rs != [] && rs[0].start <= largest && DropUntil(rs[1..], largest) == rs[1..]
    ensures rs[0].end > largest + 1 ==> DropUntil(rs, largest) == [Range(largest + 1, rs[0].end)] + rs[1..]
    ensures rs[0].end <= largest + 1 ==> DropUntil(rs, largest) == rs[1..]
  {
  }

  /** Taking the least entry out of a map takes the first range off its listing. */
  lemma ListingTail(m: map<nat, nat>)
    requires MapCanonical(m) && m != map[]
    ensures Listing(m)[0].start in m
    ensures var rest := m - {Listing(m)[0].start};
            MapCanonical(rest) && |rest| < |m| && Listing(rest) == Listing(m)[1..]
  {
    Dropped(m, Least(m.Keys));
  }

  /** Putting the grown item between the entries left gives the bounded insertion, evicting if needed. */
  lemma InsertedCovers(m0: map<nat, nat>, m: map<nat, nat>, s: nat, e: nat, st: nat, en: nat, capacity: nat)
    requires MapCanonical(m0) && |m0| <= capacity && 0 < capacity
    requires Merging(m0, m, s, e, st, en) && SameUnion(m0, s, e, m, st, en) && MapCanonical(m)
    requires forall k :: k in m && k >= st ==> k > en
    ensures |m| >= capacity ==> m != map[]
    ensures var left := if |m| >= capacity then m - {Least(m.Keys)} else m;
            MapCanonical(left[st := en]) && Listing(left[st := en]) == InsertBounded(Listing(m0), capacity, s, e)
  {
    ListingFaithful(m0);
    TouchesListed(m0, s, e);
    if |m| >= capacity {
      assert m == m0 && !MapTouches(m0, s, e);
      EvictedCovers(m0, s, e);
    } else {
      MergedCovers(m0, m, s, e, st, en);
    }
  }

  /** The lowest entry makes way for an item that touches nothing. */
  lemma EvictedCovers(m: map<nat, nat>, s: nat, e: nat)
    requires MapCanonical(m) && m != map[] && s < e && !MapTouches(m, s, e)
    ensures var left := (m - {Least(m.Keys)})[s := e];
            MapCanonical(left) && Listing(left) == InsertRange(Listing(m)[1..], s, e)
  {
    var k := Least(m.Keys);
    var rest: map<nat, nat> := m - {k};
    Dropped(m, k);
    ListingFaithful(rest);
    assert Listing(m)[1..] == Listing(rest);
    forall j | j in rest ensures j < s ==> rest[j] < s {
      assert j in m && rest[j] == m[j];
    }
    forall j | j in rest ensures j >= s ==> j > e {
      assert j in m && rest[j] == m[j] && j < m[j];
    }
    PlaceItem(rest, s, e);
    InsertIsUnion(Listing(rest), s, e);
    ListingDetermined(rest[s := e], InsertRange(Listing(rest), s, e));
  }

  /** The grown item between the entries left covers what the insertion covers. */
  lemma MergedCovers(m0: map<nat, nat>, m: map<nat, nat>, s: nat, e: nat, st: nat, en: nat)
    requires MapCanonical(m0) && Merging(m0, m, s, e, st, en) && SameUnion(m0, s, e, m, st, en) && MapCanonical(m)
    requires forall k :: k in m && k >= st ==> k > en
    ensures MapCanonical(m[st := en]) && Listing(m[st := en]) == InsertRange(Listing(m0), s, e)
  {
    hide Listing, Covers, InsertRange, MapCovers;
    ListingFaithful(m0);
    PlaceItem(m, st, en);
    InsertIsUnion(Listing(m0), s, e);
    forall x ensures MapCovers(m[st := en], x) <==> Covers(InsertRange(Listing(m0), s, e), x) {
      assert InEither(m, st, en, x) <==> InEither(m0, s, e, x);
      assert MapCovers(m[st := en], x) <==> MapCovers(m, x) || st <= x < en;
      assert Covers(InsertRange(Listing(m0), s, e), x) <==> Covers(Listing(m0), x) || s <= x < e;
      assert Covers(Listing(m0), x) <==> MapCovers(m0, x);
    }
    ListingDetermined(m[st := en], InsertRange(Listing(m0), s, e));
  }

  /** An item strictly between its neighbours extends a canonical map. */
  lemma PlaceItem(m: map<nat, nat>, st: nat, en: nat)
    requires MapCanonical(m) && st < en
    requires forall k :: k in m && k < st ==> m[k] < st
    requires forall k :: k in m && k >= st ==> k > en
    ensures MapCanonical(m[st := en])
    ensures forall x :: MapCovers(m[st := en], x) <==> MapCovers(m, x) || st <= x < en
  {
    var m' := m[st := en];
    forall x ensures MapCovers(m', x) <==> MapCovers(m, x) || st <= x < en {
      if MapCovers(m, x) {
        var k :| k in m && k <= x < m[k];
        assert k in m' && m'[k] == m[k];
      }
      if st <= x < en {
        assert st in m' && m'[st] == en;
      }
    }
  }

  /** A map and its listing touch the same items. */
  lemma {:induction false} TouchesListed(m: map<nat, nat>, s: nat, e: nat)
    ensures Touches(Listing(m), s, e) <==> MapTouches(m, s, e)
    decreases |m|
  {
    if m != map[] {
      var k: nat := Least(m.Keys);
      var rest := m - {k};
      Smaller(m, k);
      TouchesListed(rest, s, e);
      var rs := Listing(m);
      assert rs[0] == Range(k, m[k]) && rs[1..] == Listing(rest);
      if s <= m[k] && k <= e {
        assert Touches(rs, s, e);
      } else {
        TouchesTail(rs, s, e);
        if MapTouches(m, s, e) {
          var j: nat :| j in m && s <= m[j] && j <= e;
          assert j in rest && rest[j] == m[j];
        }
        if MapTouches(rest, s, e) {
          var j: nat :| j in rest && s <= rest[j] && j <= e;
          assert j in m && m[j] == rest[j];
        }
      }
    }
  }

  // -------------------------------------------------------------------------
  // Either representation
  // -------------------------------------------------------------------------

  /** The ordered map a vector turns into. */
  function ToMap(rs: seq<Range>): map<nat, nat> {
    if rs == [] then map[] else ToMap(rs[1..])[rs[0].start := rs[0].end]
  }

  /** Turning a canonical vector into a map loses nothing. */
  lemma {:induction false} ToMapLists(rs: seq<Range>)
    requires Canonical(rs)
    ensures MapCanonical(ToMap(rs)) && Listing(ToMap(rs)) == rs
    ensures forall k :: k in ToMap(rs) ==> rs != [] && k >= rs[0].start
    ensures forall x :: MapCovers(ToMap(rs), x) <==> Covers(rs, x)
  {
    if rs != [] {
      ToMapLists(rs[1..]);
      PlaceItem(ToMap(rs[1..]), rs[0].start, rs[0].end);
      forall x ensures MapCovers(ToMap(rs), x) <==> Covers(rs, x) {
        CoversSplit(rs, x);
      }
    }
    ListingDetermined(ToMap(rs), rs);
  }

  /** Only the empty list denotes the empty set. */
  lemma EmptySet(rs: seq<Range>)
    requires Canonical(rs)
    ensures rs == [] <==> SetOf(rs) == iset{}
  {
    if rs != [] {
      assert Covers(rs, rs[0].start);
      assert (rs[0].start as int) in SetOf(rs);
    }
  }

  datatype Repr = Inline(vec: InlineRangeSet) | BTree(tree: BTreeRangeSet)

  class RangeSet {
    var repr: Repr

    ghost function Object(): object
      reads this
    {
      match repr case Inline(v) => v case BTree(t) => t
    }

    /** The stored ranges in order, whatever the representation. */
    ghost function View(): seq<Range>
      reads this, Object()
    {
      match repr case Inline(v) => v.inner case BTree(t) => Listing(t.inner)
    }

    function Capacity(): nat
      reads this
    {
      match repr case Inline(v) => v.capacity case BTree(t) => t.capacity
    }

    /** Well formed, but possibly with a representation that does not suit its size. */
    ghost predicate Loose()
      reads this, Object()
    {
      match repr
      case Inline(v) => Canonical(v.inner) && |v.inner| <= v.capacity && |v.inner| <= MAX_INLINE_CAPACITY
      case BTree(t) => MapCanonical(t.inner) && |t.inner| <= t.capacity && MAX_INLINE_CAPACITY <= t.capacity
    }

    /** Up to three ranges may be in the vector, three or more in the map. */
    ghost predicate Valid()
      reads this, Object()
    {
      Loose() &&
      match repr
      case Inline(v) => |v.inner| < MAX_INLINE_CAPACITY
      case BTree(t) => |t.inner| > MIN_TO_INLINE
    }

    constructor (capacity: nat)
      ensures Valid() && View() == [] && Capacity() == capacity && fresh(Object())
    {
      var v := new InlineRangeSet([], capacity);
      repr := Inline(v);
    }

    /** Switches the representation when the size asks for it, and keeps the data. */
    method Fixup()
      requires Loose()
      modifies this
      ensures Valid() && View() == old(View()) && Capacity() == old(Capacity())
      ensures Object() == old(Object()) || fresh(Object())
    {
      match repr {
        case Inline(v) =>
          if |v.inner| == MAX_INLINE_CAPACITY {
            ToMapLists(v.inner);
            ListingShape(ToMap(v.inner));
            var t := new BTreeRangeSet(ToMap(v.inner), v.capacity);
            repr := BTree(t);
          }
        case BTree(t) =>
          if |t.inner| <= MIN_TO_INLINE {
            ListingShape(t.inner);
            var v := new InlineRangeSet(Listing(t.inner), t.capacity);
            repr := Inline(v);
          }
      }
    }

    /**
     Inserts `s..e`. The only inputs that make the program fail are those of `InlinePanics`, which
     need a capacity below four.
     */
    method Insert(s: nat, e: nat)
      requires Valid() && s < e <= U64_MAX
      requires Capacity() < MAX_INLINE_CAPACITY ==> !InlinePanics(View(), Capacity(), s, e)
      modifies this, Object()
      ensures Valid() && Capacity() == old(Capacity())
      ensures View() == InsertBounded(old(View()), Capacity(), s, e)
      ensures Object() == old(Object()) || fresh(Object())
    {
      hide InsertRange, MapCanonical, Listing;
      match repr {
        case Inline(v) =>
          InsertLength(v.inner, s, e);
          InsertIsUnion(v.inner, s, e);
          if |v.inner| > 0 {
            InsertLength(v.inner[1..], s, e);
            InsertIsUnion(v.inner[1..], s, e);
          }
          v.Insert(s, e);
        case BTree(t) =>
          ghost var rs := Listing(t.inner);
          ListingShape(t.inner);
          InsertLength(rs, s, e);
          InsertLength(rs[1..], s, e);
          t.Insert(s, e);
      }
      Fixup();
    }

    method RemoveUntil(largest: nat)
      requires Valid() && (repr.BTree? ==> largest < U64_MAX)
      modifies this, Object()
      ensures Valid() && Capacity() == old(Capacity())
      ensures View() == DropUntil(old(View()), largest)
      ensures Object() == old(Object()) || fresh(Object())
    {
      match repr {
        case Inline(v) =>
          DropIsSubtraction(v.inner, largest);
          v.RemoveUntil(largest);
        case BTree(t) =>
          ListingShape(t.inner);
          DropIsSubtraction(Listing(t.inner), largest);
          t.RemoveUntil(largest);
          ListingShape(t.inner);
      }
      Fixup();
    }

    method PushItem(x: nat)
      requires Valid() && x < U64_MAX
      requires Capacity() < MAX_INLINE_CAPACITY ==> !InlinePanics(View(), Capacity(), x, x + 1)
      modifies this, Object()
      ensures Valid() && Capacity() == old(Capacity())
      ensures View() == InsertBounded(old(View()), Capacity(), x, x + 1)
      ensures Object() == old(Object()) || fresh(Object())
    {
      Insert(x, x + 1);
    }

    method Len() returns (n: nat)
      requires Valid()
      ensures n == |View()|
    {
      match repr {
        case Inline(v) => n := |v.inner|;
        case BTree(t) =>
          ListingShape(t.inner);
          n := |t.inner|;
      }
    }

    method Iter() returns (rs: seq<Range>)
      requires Valid()
      ensures rs == View() && Canonical(rs)
    {
      match repr {
        case Inline(v) => rs := v.inner;
        case BTree(t) =>
          ListingShape(t.inner);
          rs := Listing(t.inner);
      }
    }

    /** The smallest value, if any. */
    method First() returns (x: Option<nat>)
      requires Valid()
      ensures x.None? <==> SetOf(View()) == iset{}
      ensures x.Some? ==> x.value in SetOf(View()) && forall y :: y in SetOf(View()) ==> x.value <= y
    {
      var rs := Iter();
      EmptySet(rs);
      if rs == [] {
        return None;
      }
      assert Covers(rs, rs[0].start);
      return Some(rs[0].start);
    }

    /** The largest value, if any. */
    method Last() returns (x: Option<nat>)
      requires Valid()
      ensures x.None? <==> SetOf(View()) == iset{}
      ensures x.Some? ==> x.value in SetOf(View()) && forall y :: y in SetOf(View()) ==> y <= x.value
    {
      var rs := Iter();
      EmptySet(rs);
      if rs == [] {
        return None;
      }
      var last := |rs| - 1;
      assert Covers(rs, rs[last].end - 1);
      return Some(rs[last].end - 1);
    }
  }

  /** The two insertion algorithms give equal lists from equal views, for every item. */
  method InsertBoth(v: InlineRangeSet, t: BTreeRangeSet, s: nat, e: nat)
    requires s < e && Canonical(v.inner) && MapCanonical(t.inner) && Listing(t.inner) == v.inner
    requires v.capacity == t.capacity && 0 < t.capacity && |t.inner| <= t.capacity && |v.inner| <= v.capacity
    requires !InlinePanics(v.inner, v.capacity, s, e)
    modifies v, t
    ensures Listing(t.inner) == v.inner
  {
    v.Insert(s, e);
    t.Insert(s, e);
  }

  // -------------------------------------------------------------------------
  // Runs with unlimited capacity
  // -------------------------------------------------------------------------

  /** One update of a set that never reaches its capacity. */
  datatype Update = Add(s: nat, e: nat) | Drop(largest: nat)

  ghost predicate WellFormed(us: seq<Update>) {
    forall i :: 0 <= i < |us| && us[i].Add? ==> us[i].s < us[i].e
  }

  /** The list of ranges after the updates. */
  function Run(rs: seq<Range>, us: seq<Update>): seq<Range>
    decreases |us|
  {
    if us == [] then rs
    else
      match us[0]
      case Add(s, e) => Run(InsertRange(rs, s, e), us[1..])
      case Drop(largest) => Run(DropUntil(rs, largest), us[1..])
  }

  /** The mathematical set after the same updates. */
  ghost function RunSet(xs: iset<int>, us: seq<Update>): iset<int>
    decreases |us|
  {
    if us == [] then xs
    else
      match us[0]
      case Add(s, e) => RunSet(xs + Interval(s, e), us[1..])
      case Drop(largest) => RunSet(xs - Interval(0, largest + 1), us[1..])
  }

  /** Over every run the stored ranges stay canonical and denote exactly the mathematical set. */
  lemma {:induction false} RunRefinesSet(rs: seq<Range>, us: seq<Update>)
    requires Canonical(rs) && WellFormed(us)
    ensures Canonical(Run(rs, us)) && SetOf(Run(rs, us)) == RunSet(SetOf(rs), us)
    decreases |us|
  {
    if us != [] {
      match us[0] {
        case Add(s, e) =>
          InsertedSet(rs, s, e);
          RunRefinesSet(InsertRange(rs, s, e), us[1..]);
        case Drop(largest) =>
          DroppedSet(rs, largest);
          RunRefinesSet(DropUntil(rs, largest), us[1..]);
      }
    }
  }

  /**
   The same of the object itself, through every change of representation: after any run that cannot
   fill its capacity, a range set holds exactly the mathematical set, in canonical form.
   */
  method Replay(us: seq<Update>, capacity: nat) returns (r: RangeSet)
    requires WellFormed(us) && |us| < capacity && MAX_INLINE_CAPACITY <= capacity
    requires forall u <- us :: if u.Add? then u.e <= U64_MAX else u.largest < U64_MAX
    ensures r.Valid() && r.Capacity() == capacity
    ensures Canonical(r.View()) && r.View() == Run([], us) && SetOf(r.View()) == RunSet(iset{}, us)
  {
    hide InsertRange, DropUntil, Listing, MapCanonical, Canonical, SetOf, Touches;
    r := new RangeSet(capacity);
    CanonicalEmpty();
    assert us[0..] == us;
    for i := 0 to |us|
      invariant fresh(r) && fresh(r.Object()) && r.Valid() && r.Capacity() == capacity
      invariant Canonical(r.View()) && |r.View()| <= i
      invariant Run(r.View(), us[i..]) == Run([], us)
    {
      ghost var rs := r.View();
      assert us[i..][0] == us[i] && us[i..][1..] == us[i + 1..];
      match us[i] {
        case Add(s, e) =>
          InsertLength(rs, s, e);
          InsertedSet(rs, s, e);
          r.Insert(s, e);
        case Drop(largest) =>
          DropIsSubtraction(rs, largest);
          r.RemoveUntil(largest);
      }
    }
    RunRefinesSet([], us);
  }

  lemma CanonicalEmpty()
    ensures Canonical([]) && SetOf([]) == iset{}
  {
  }
}
