/**
 Stream data out of order (quiche/src/stream/recv_buf.rs): what a list of buffered chunks says about each
 offset of the stream. The ordered map of the program, keyed by a chunk's end, is a list sorted by that key.
 */
module RecvSpec {
  import opened Common
  import opened FrameSpec

  /** `max_off`: the offset behind the last byte. */
  function MaxOff(c: Chunk): nat {
    c.off + |c.data|
  }

  predicate Contains(c: Chunk, x: nat) {
    c.off <= x < MaxOff(c)
  }

  function ByteAt(c: Chunk, x: nat): byte
    requires Contains(c, x)
  {
    c.data[x - c.off]
  }

  /** `split_off`: the part before and the part from `at`; the fin flag goes with the latter. */
  function Before(c: Chunk, at: nat): Chunk
    requires c.off <= at <= MaxOff(c)
  {
    Chunk(c.data[..at - c.off], c.off, false)
  }

  function From(c: Chunk, at: nat): Chunk
    requires c.off <= at <= MaxOff(c)
  {
    Chunk(c.data[at - c.off..], at, c.fin)
  }

  /** A part of a chunk, with the same bytes at the same offsets. */
  ghost predicate PartOf(p: Chunk, c: Chunk) {
    c.off <= p.off && MaxOff(p) <= MaxOff(c) && forall x :: Contains(p, x) ==> ByteAt(p, x) == ByteAt(c, x)
  }

  // -------------------------------------------------------------------------
  // Lists of chunks
  // -------------------------------------------------------------------------

  /** In order of their ends, and without overlap. */
  ghost predicate Sorted(d: seq<Chunk>) {
    forall i, j :: 0 <= i < j < |d| ==> MaxOff(d[i]) <= d[j].off && MaxOff(d[i]) < MaxOff(d[j])
  }

  ghost predicate Apart(a: Chunk, b: Chunk) {
    MaxOff(a) <= b.off || MaxOff(b) <= a.off
  }

  /** The byte buffered for offset `x`, if any. */
  ghost function At(d: seq<Chunk>, x: nat): Option<byte> {
    if d == [] then None
    else if Contains(d[0], x) then Some(ByteAt(d[0], x))
    else At(d[1..], x)
  }

  lemma {:induction false} AtNone(d: seq<Chunk>, x: nat)
    ensures At(d, x).None? <==> forall i :: 0 <= i < |d| ==> !Contains(d[i], x)
  {
    if d != [] {
      AtNone(d[1..], x);
      assert forall i :: 0 < i < |d| ==> d[i] == d[1..][i - 1];
    }
  }

  lemma {:induction false} AtConcat(a: seq<Chunk>, b: seq<Chunk>, x: nat)
    ensures At(a + b, x) == if At(a, x).Some? then At(a, x) else At(b, x)
  {
    if a == [] {
      assert a + b == b;
    } else {
      AtConcat(a[1..], b, x);
      assert (a + b)[1..] == a[1..] + b;
    }
  }

  /** Where the map puts a chunk with the given end: behind all smaller keys. */
  function Slot(d: seq<Chunk>, end: nat): (p: nat)
    ensures p <= |d|
    ensures forall i :: 0 <= i < p ==> MaxOff(d[i]) < end
    ensures p < |d| ==> MaxOff(d[p]) >= end
  {
    if d == [] || MaxOff(d[0]) >= end then 0 else 1 + Slot(d[1..], end)
  }

  /** Insertion into the map: a chunk under the same key is replaced. */
  function Stored(d: seq<Chunk>, c: Chunk): seq<Chunk> {
    var p := Slot(d, MaxOff(c));
    d[..p] + [c] + d[if p < |d| && MaxOff(d[p]) == MaxOff(c) then p + 1 else p..]
  }

  /** Everything in `a` lies before everything in `b`. */
  ghost predicate Precedes(a: seq<Chunk>, b: seq<Chunk>) {
    forall i, j :: 0 <= i < |a| && 0 <= j < |b| ==> MaxOff(a[i]) <= b[j].off && MaxOff(a[i]) < MaxOff(b[j])
  }

  lemma SortedConcat(a: seq<Chunk>, b: seq<Chunk>)
    requires Sorted(a) && Sorted(b) && Precedes(a, b)
    ensures Sorted(a + b)
  {
    var r := a + b;
    forall i, j | 0 <= i < j < |r| ensures MaxOff(r[i]) <= r[j].off && MaxOff(r[i]) < MaxOff(r[j]) {
      if i < |a| <= j {
        assert r[i] == a[i] && r[j] == b[j - |a|];
      }
    }
  }

  lemma BehindSlot(d: seq<Chunk>, c: Chunk, p: nat, q: nat)
    requires Sorted(d) && forall i :: 0 <= i < |d| ==> Apart(d[i], c)
    requires p == Slot(d, MaxOff(c)) && q == (if p < |d| && MaxOff(d[p]) == MaxOff(c) then p + 1 else p)
    ensures forall j :: q <= j < |d| ==> MaxOff(c) <= d[j].off && MaxOff(c) < MaxOff(d[j])
    ensures forall j :: 0 <= j < p ==> MaxOff(d[j]) <= c.off && MaxOff(d[j]) < MaxOff(c)
  {
    hide Slot, Sorted;
    forall j | q <= j < |d| ensures MaxOff(c) <= d[j].off && MaxOff(c) < MaxOff(d[j]) {
      EndsAbove(d, c, p, q, j);
      ApartBehind(d[j], c);
    }
    forall j | 0 <= j < p ensures MaxOff(d[j]) <= c.off && MaxOff(d[j]) < MaxOff(c) {
      ApartBehind(c, d[j]);
    }
  }

  /** Of two chunks without overlap the one with the higher end lies behind the other. */
  lemma ApartBehind(high: Chunk, low: Chunk)
    requires (Apart(high, low) || Apart(low, high)) && MaxOff(low) < MaxOff(high)
    ensures MaxOff(low) <= high.off
  {
  }

  lemma EndsAbove(d: seq<Chunk>, c: Chunk, p: nat, q: nat, j: nat)
    requires Sorted(d) && p < |d| && MaxOff(d[p]) >= MaxOff(c) && q <= j < |d|
    requires q == if MaxOff(d[p]) == MaxOff(c) then p + 1 else p
    ensures MaxOff(c) < MaxOff(d[j])
  {
    if j > p {
      assert MaxOff(d[p]) < MaxOff(d[j]);
    }
  }

  lemma SubSorted(d: seq<Chunk>, p: nat, q: nat)
    requires Sorted(d) && p <= q <= |d|
    ensures Sorted(d[..p]) && Sorted(d[q..]) && Precedes(d[..p], d[q..])
  {
    forall i, j | 0 <= i < p && 0 <= j < |d| - q
      ensures MaxOff(d[..p][i]) <= d[q..][j].off && MaxOff(d[..p][i]) < MaxOff(d[q..][j])
    {
      assert d[..p][i] == d[i] && d[q..][j] == d[q + j];
    }
  }

  lemma StoredSorted(d: seq<Chunk>, c: Chunk)
    requires Sorted(d) && forall i :: 0 <= i < |d| ==> Apart(d[i], c)
    ensures Sorted(Stored(d, c)) && Stored(d, c) != []
    ensures forall k :: 0 <= k < |Stored(d, c)| ==> Stored(d, c)[k] == c || Stored(d, c)[k] in d
  {
    hide Slot, Apart, Sorted, Precedes;
    var p := Slot(d, MaxOff(c));
    var q := if p < |d| && MaxOff(d[p]) == MaxOff(c) then p + 1 else p;
    AroundSlot(d, c, p, q);
    SubSorted(d, p, q);
    OneSorted(c);
    SortedConcat(d[..p], [c]);
    SortedConcat(d[..p] + [c], d[q..]);
  }

  lemma AroundSlot(d: seq<Chunk>, c: Chunk, p: nat, q: nat)
    requires Sorted(d) && forall i :: 0 <= i < |d| ==> Apart(d[i], c)
    requires p == Slot(d, MaxOff(c)) && q == (if p < |d| && MaxOff(d[p]) == MaxOff(c) then p + 1 else p)
    ensures Precedes(d[..p], [c]) && Precedes(d[..p] + [c], d[q..])
  {
    hide Slot, Sorted;
    BehindSlot(d, c, p, q);
    SubSorted(d, p, q);
    forall i, j | 0 <= i < p + 1 && 0 <= j < |d| - q
      ensures MaxOff((d[..p] + [c])[i]) <= d[q..][j].off && MaxOff((d[..p] + [c])[i]) < MaxOff(d[q..][j])
    {
      assert d[q..][j] == d[q + j];
      if i < p {
        assert (d[..p] + [c])[i] == d[..p][i];
      }
    }
  }

  lemma OneSorted(c: Chunk)
    ensures Sorted([c])
  {
  }

  /** Storing adds the chunk's bytes and loses none, unless an empty chunk takes the place of another. */
  lemma StoredAt(d: seq<Chunk>, c: Chunk, x: nat)
    requires Sorted(d) && forall i :: 0 <= i < |d| ==> Apart(d[i], c)
    requires c.data == [] ==> forall i :: 0 <= i < |d| ==> MaxOff(d[i]) != MaxOff(c)
    ensures At(Stored(d, c), x) == if Contains(c, x) then Some(ByteAt(c, x)) else At(d, x)
  {
    hide Slot, At, Sorted;
    var p := Slot(d, MaxOff(c));
    var q := if p < |d| && MaxOff(d[p]) == MaxOff(c) then p + 1 else p;
    assert Stored(d, c) == d[..p] + ([c] + d[q..]);
    AtConcat(d[..p], [c] + d[q..], x);
    AtConcat([c], d[q..], x);
    AtOne(c, x);
    assert d == d[..p] + d[p..];
    AtConcat(d[..p], d[p..], x);
    if Contains(c, x) {
      AtNone(d[..p], x);
      assert forall i :: 0 <= i < p ==> Apart(d[i], c);
    } else if q == p + 1 {
      assert d[p..] == [d[p]] + d[q..];
      AtConcat([d[p]], d[q..], x);
      AtOne(d[p], x);
      assert Apart(d[p], c);
    }
  }

  lemma AtOne(c: Chunk, x: nat)
    ensures At([c], x) == if Contains(c, x) then Some(ByteAt(c, x)) else None
  {
    assert [c][1..] == [];
  }
}
