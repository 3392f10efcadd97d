/**
 Sets of integers as sorted lists of half-open ranges with a missing value between neighbours: the
 meaning that both representations of `RangeSet` (quiche/src/ranges.rs) must agree on.
 */
module RangeSpec {

  datatype Range = Range(start: nat, end: nat)

  /** Non-empty ranges in increasing order, never touching each other. */
  ghost predicate Canonical(rs: seq<Range>) {
    && (forall i :: 0 <= i < |rs| ==> rs[i].start < rs[i].end)
    && (forall i, j :: 0 <= i < j < |rs| ==> rs[i].end < rs[j].start)
  }

  ghost predicate Covers(rs: seq<Range>, x: int) {
    exists i :: 0 <= i < |rs| && rs[i].start <= x < rs[i].end
  }

  /** The mathematical set a list of ranges stands for. */
  ghost function SetOf(rs: seq<Range>): iset<int> {
    iset x: int | Covers(rs, x)
  }

  ghost predicate Within(x: int, s: nat, e: nat) {
    s <= x < e
  }

  ghost function Interval(s: nat, e: nat): iset<int> {
    iset x: int | Within(x, s, e)
  }

  /** Does the item overlap or adjoin some stored range? */
  ghost predicate Touches(rs: seq<Range>, s: nat, e: nat) {
    exists i :: 0 <= i < |rs| && s <= rs[i].end && rs[i].start <= e
  }

  function Min(a: nat, b: nat): nat { if a <= b then a else b }
  function Max(a: nat, b: nat): nat { if a >= b then a else b }

  /** Insertion into a sorted list: skip what lies below, absorb what touches, keep what lies above. */
  function InsertRange(rs: seq<Range>, s: nat, e: nat): seq<Range>
    decreases |rs|
  {
    if rs == [] then [Range(s, e)]
    else if s > rs[0].end then [rs[0]] + InsertRange(rs[1..], s, e)
    else if e < rs[0].start then [Range(s, e)] + rs
    else InsertRange(rs[1..], Min(s, rs[0].start), Max(e, rs[0].end))
  }

  /** Insertion under a capacity: a full list that the item does not touch loses its lowest range. */
  ghost function InsertBounded(rs: seq<Range>, capacity: nat, s: nat, e: nat): seq<Range> {
    if |rs| == capacity > 0 && !Touches(rs, s, e) then InsertRange(rs[1..], s, e) else InsertRange(rs, s, e)
  }

  /** Removal of every value up to and including `largest`. */
  function DropUntil(rs: seq<Range>, largest: nat): seq<Range>
    decreases |rs|
  {
    if rs == [] then []
    else if rs[0].end <= largest then DropUntil(rs[1..], largest)
    else
      var s := Max(largest + 1, rs[0].start);
      if s == rs[0].end then rs[1..] else [Range(s, rs[0].end)] + rs[1..]
  }

  // -------------------------------------------------------------------------
  // Lists and their sets
  // -------------------------------------------------------------------------

  lemma CoversCons(r: Range, rs: seq<Range>, x: int)
    ensures Covers([r] + rs, x) <==> r.start <= x < r.end || Covers(rs, x)
  {
    var all := [r] + rs;
    if Covers(rs, x) {
      var i :| 0 <= i < |rs| && rs[i].start <= x < rs[i].end;
      assert all[i + 1] == rs[i];
    }
    assert all[0] == r;
  }

  lemma CoversSplit(rs: seq<Range>, x: int)
    requires rs != []
    ensures Covers(rs, x) <==> rs[0].start <= x < rs[0].end || Covers(rs[1..], x)
  {
    assert rs == [rs[0]] + rs[1..];
    CoversCons(rs[0], rs[1..], x);
  }

  lemma CanonicalCons(r: Range, rs: seq<Range>)
    requires Canonical(rs) && r.start < r.end && (rs != [] ==> r.end < rs[0].start)
    ensures Canonical([r] + rs)
  {
  }

  /** A canonical list is determined by its set. */
  lemma {:induction false} CanonicalUnique(a: seq<Range>, b: seq<Range>)
    requires Canonical(a) && Canonical(b)
    requires forall x :: Covers(a, x) <==> Covers(b, x)
    ensures a == b
    decreases |a|
  {
    HeadCovered(a);
    HeadCovered(b);
    if a != [] {
      assert b != [];
      HeadsAgree(a, b);
      HeadsAgree(b, a);
      forall x ensures Covers(a[1..], x) <==> Covers(b[1..], x) {
        CoversSplit(a, x);
        CoversSplit(b, x);
        assert Covers(a[1..], x) ==> x >= a[0].end;
        assert Covers(b[1..], x) ==> x >= b[0].end;
      }
      CanonicalUnique(a[1..], b[1..]);
      assert a == [a[0]] + a[1..] && b == [b[0]] + b[1..];
    }
  }

  lemma HeadsAgree(a: seq<Range>, b: seq<Range>)
    requires Canonical(a) && Canonical(b) && a != [] && b != []
    requires forall x :: Covers(a, x) <==> Covers(b, x)
    ensures b[0].start <= a[0].start
    ensures b[0].start == a[0].start ==> b[0].end <= a[0].end
  {
    HeadCovered(a);
    HeadCovered(b);
    assert !Covers(a, a[0].end);
  }

  lemma HeadCovered(rs: seq<Range>)
    requires Canonical(rs)
    ensures rs != [] ==> Covers(rs, rs[0].start) && forall x :: rs[0].start <= x < rs[0].end ==> Covers(rs, x)
  {
  }

  // -------------------------------------------------------------------------
  // Insertion
  // -------------------------------------------------------------------------

  lemma InsertFirst(s: nat, e: nat)
    ensures InsertRange([], s, e) == [Range(s, e)]
  {
  }

  /** An item below all ranges becomes the first one. */
  lemma InsertInFront(rs: seq<Range>, s: nat, e: nat)
    requires s < e && (rs != [] ==> e < rs[0].start <= rs[0].end)
    ensures InsertRange(rs, s, e) == [Range(s, e)] + rs
    ensures Canonical(rs) ==> Canonical([Range(s, e)] + rs) && !Touches(rs, s, e)
  {
    hide InsertRange;
    FirstUnfolds(rs, s, e);
    if Canonical(rs) {
      CanonicalCons(Range(s, e), rs);
    }
  }

  lemma FirstUnfolds(rs: seq<Range>, s: nat, e: nat)
    requires s < e && (rs != [] ==> e < rs[0].start <= rs[0].end)
    ensures InsertRange(rs, s, e) == [Range(s, e)] + rs
  {
  }

  /** Insertion is set union and keeps the list canonical. */
  lemma {:induction false} InsertIsUnion(rs: seq<Range>, s: nat, e: nat)
    requires Canonical(rs) && s < e
    ensures Canonical(InsertRange(rs, s, e))
    ensures InsertRange(rs, s, e) != [] && InsertRange(rs, s, e)[0].start ==
              (if rs == [] then s else Min(s, rs[0].start))
    ensures forall x :: Covers(InsertRange(rs, s, e), x) <==> Covers(rs, x) || s <= x < e
    decreases |rs|
  {
    var out := InsertRange(rs, s, e);
    if rs == [] {
      forall x ensures Covers(out, x) <==> s <= x < e {
        CoversCons(Range(s, e), [], x);
      }
    } else if s > rs[0].end {
      InsertIsUnion(rs[1..], s, e);
      CanonicalCons(rs[0], InsertRange(rs[1..], s, e));
      forall x ensures Covers(out, x) <==> Covers(rs, x) || s <= x < e {
        CoversCons(rs[0], InsertRange(rs[1..], s, e), x);
        CoversSplit(rs, x);
      }
    } else if e < rs[0].start {
      CanonicalCons(Range(s, e), rs);
      forall x ensures Covers(out, x) <==> Covers(rs, x) || s <= x < e {
        CoversCons(Range(s, e), rs, x);
      }
    } else {
      var s', e' := Min(s, rs[0].start), Max(e, rs[0].end);
      InsertIsUnion(rs[1..], s', e');
      forall x ensures Covers(out, x) <==> Covers(rs, x) || s <= x < e {
        CoversSplit(rs, x);
        assert s' <= x < e' <==> s <= x < e || rs[0].start <= x < rs[0].end;
      }
    }
  }

  /** An insertion adds a range exactly when it touches none; otherwise it never adds one. */
  lemma {:induction false} InsertLength(rs: seq<Range>, s: nat, e: nat)
    requires Canonical(rs) && s < e
    ensures 1 <= |InsertRange(rs, s, e)| <= |rs| + 1
    ensures |InsertRange(rs, s, e)| == |rs| + 1 <==> !Touches(rs, s, e)
    decreases |rs|
  {
    if rs != [] {
      if s > rs[0].end {
        InsertLength(rs[1..], s, e);
        TouchesTail(rs, s, e);
      } else if e < rs[0].start {
        assert !Touches(rs, s, e);
      } else {
        InsertLength(rs[1..], Min(s, rs[0].start), Max(e, rs[0].end));
        assert Touches(rs, s, e);
      }
    }
  }

  lemma TouchesTail(rs: seq<Range>, s: nat, e: nat)
    requires rs != [] && (s > rs[0].end || e < rs[0].start)
    ensures Touches(rs, s, e) <==> Touches(rs[1..], s, e)
  {
    if Touches(rs, s, e) {
      var i :| 0 <= i < |rs| && s <= rs[i].end && rs[i].start <= e;
      assert rs[1..][i - 1] == rs[i];
    }
    if Touches(rs[1..], s, e) {
      var i :| 0 <= i < |rs[1..]| && s <= rs[1..][i].end && rs[1..][i].start <= e;
      assert rs[i + 1] == rs[1..][i];
    }
  }

  /** Insertion into a list whose first `pos` ranges end below the item leaves those alone. */
  lemma {:induction false} InsertSkips(rs: seq<Range>, pos: nat, s: nat, e: nat)
    requires pos <= |rs| && forall i :: 0 <= i < pos ==> rs[i].end < s
    ensures InsertRange(rs, s, e) == rs[..pos] + InsertRange(rs[pos..], s, e)
    decreases pos
  {
    if pos == 0 {
      assert rs[0..] == rs;
    } else {
      assert rs[0].end < s;
      assert forall i :: 0 <= i < pos - 1 ==> rs[1..][i] == rs[i + 1];
      InsertSkips(rs[1..], pos - 1, s, e);
      assert rs[1..][pos - 1..] == rs[pos..];
      assert rs[..pos] == [rs[0]] + rs[1..][..pos - 1];
    }
  }

  /** The two sets: union, as one equation. */
  lemma InsertedSet(rs: seq<Range>, s: nat, e: nat)
    requires Canonical(rs) && s < e
    ensures Canonical(InsertRange(rs, s, e)) && SetOf(InsertRange(rs, s, e)) == SetOf(rs) + Interval(s, e)
  {
    InsertIsUnion(rs, s, e);
  }

  /**
   Insertion under a capacity of at least two: the bound holds, the whole item is stored, values are
   lost only when the list was full and the item touched nothing, and then exactly the lowest range
   goes; the largest value is never among the lost.
   */
  lemma InsertBoundedExact(rs: seq<Range>, capacity: nat, s: nat, e: nat)
    requires Canonical(rs) && |rs| <= capacity && 2 <= capacity && s < e
    ensures var out := InsertBounded(rs, capacity, s, e);
            && Canonical(out) && 1 <= |out| <= capacity
            && Interval(s, e) <= SetOf(out)
            && (|rs| < capacity || Touches(rs, s, e) ==> SetOf(out) == SetOf(rs) + Interval(s, e))
            && (|rs| == capacity && !Touches(rs, s, e) ==>
                  SetOf(out) == SetOf(rs) - Interval(rs[0].start, rs[0].end) + Interval(s, e))
            && (rs != [] ==> (rs[|rs| - 1].end - 1) in SetOf(out))
  {
    InsertLength(rs, s, e);
    InsertedSet(rs, s, e);
    if rs != [] {
      assert Covers(rs, rs[|rs| - 1].end - 1);
    }
    if |rs| == capacity && !Touches(rs, s, e) {
      InsertLength(rs[1..], s, e);
      InsertedSet(rs[1..], s, e);
      forall x ensures x in SetOf(rs[1..]) <==> x in SetOf(rs) - Interval(rs[0].start, rs[0].end) {
        CoversSplit(rs, x);
      }
      assert rs[1..][|rs| - 2] == rs[|rs| - 1];
      assert Covers(rs[1..], rs[|rs| - 1].end - 1);
    }
  }

  // -------------------------------------------------------------------------
  // Removal
  // -------------------------------------------------------------------------

  /** Removal up to `largest` is set subtraction and keeps the list canonical, no longer than before. */
  lemma {:induction false} DropIsSubtraction(rs: seq<Range>, largest: nat)
    requires Canonical(rs)
    ensures Canonical(DropUntil(rs, largest)) && |DropUntil(rs, largest)| <= |rs|
    ensures forall x :: Covers(DropUntil(rs, largest), x) <==> Covers(rs, x) && x > largest
    decreases |rs|
  {
    if rs != [] {
      var out := DropUntil(rs, largest);
      var s := Max(largest + 1, rs[0].start);
      if rs[0].end <= largest {
        DropIsSubtraction(rs[1..], largest);
      } else if s != rs[0].end {
        CanonicalCons(Range(s, rs[0].end), rs[1..]);
      }
      forall x ensures Covers(out, x) <==> Covers(rs, x) && x > largest {
        CoversSplit(rs, x);
        CoversCons(Range(s, rs[0].end), rs[1..], x);
        assert Covers(rs[1..], x) ==> x > rs[0].end;
      }
    }
  }

  lemma DroppedSet(rs: seq<Range>, largest: nat)
    requires Canonical(rs)
    ensures Canonical(DropUntil(rs, largest)) && SetOf(DropUntil(rs, largest)) == SetOf(rs) - Interval(0, largest + 1)
  {
    DropIsSubtraction(rs, largest);
    forall x | x in SetOf(rs) ensures 0 <= x {
    }
  }

  // -------------------------------------------------------------------------
  // Flattening
  // -------------------------------------------------------------------------

  /** The values of one range in order. */
  function Values(s: nat, e: nat): (vs: seq<nat>)
    requires s <= e
    ensures |vs| == e - s && forall i :: 0 <= i < |vs| ==> vs[i] == s + i
    decreases e - s
  {
    if s == e then [] else [s] + Values(s + 1, e)
  }

  /** Every covered value in increasing order (`flatten`). */
  function Flatten(rs: seq<Range>): seq<nat> {
    if rs == [] then []
    else (if rs[0].start <= rs[0].end then Values(rs[0].start, rs[0].end) else []) + Flatten(rs[1..])
  }

  /** Flattening enumerates exactly the set, strictly increasing. */
  lemma {:induction false} FlattenEnumerates(rs: seq<Range>)
    requires Canonical(rs)
    ensures forall x :: x in Flatten(rs) <==> x in SetOf(rs)
    ensures forall i, j :: 0 <= i < j < |Flatten(rs)| ==> Flatten(rs)[i] < Flatten(rs)[j]
  {
    if rs != [] {
      FlattenEnumerates(rs[1..]);
      var head, tail := Values(rs[0].start, rs[0].end), Flatten(rs[1..]);
      forall x: nat ensures x in head <==> rs[0].start <= x < rs[0].end {
        if rs[0].start <= x < rs[0].end {
          assert head[x - rs[0].start] == x;
        }
      }
      forall x ensures x in Flatten(rs) <==> x in SetOf(rs) {
        CoversSplit(rs, x);
        assert x in Flatten(rs) <==> x in head || x in tail;
      }
      forall j | 0 <= j < |tail| ensures tail[j] >= rs[0].end {
        assert tail[j] in tail;
        assert Covers(rs[1..], tail[j]);
      }
    }
  }
}
