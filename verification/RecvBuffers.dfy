/**
 The receive side of a stream, quiche/src/stream/recv_buf.rs: chunks arrive in any order, overlapping and
 repeated, and are read in order. The flexicast stream rotation is not part of this model.
 */
module RecvBuffers {
  import opened Common
  import opened FrameSpec
  import opened RecvSpec
  import FlowControl

  const DEFAULT_STREAM_WINDOW := 32 * 1024

  /** The state of the overlap loop in front of stored chunk `i`. */
  ghost predicate Untangling(d: seq<Chunk>, orig: Chunk, kept: Chunk, tail: Option<Chunk>, i: nat) {
    && i <= |d| && PartOf(kept, orig) && (kept.data == [] ==> kept == orig)
    && (forall j :: 0 <= j < i ==> Apart(d[j], kept) && (kept.data == [] ==> MaxOff(d[j]) < kept.off))
    && (forall x: nat :: orig.off <= x < kept.off ==> At(d, x).Some?)
    && match tail
       case None => MaxOff(kept) == MaxOff(orig)
       case Some(t) =>
         && PartOf(t, orig) && t.off == MaxOff(kept) && MaxOff(t) == MaxOff(orig) && 0 < |t.data| < |orig.data|
         && (forall j :: i <= j < |d| ==> MaxOff(kept) <= d[j].off)
  }

  lemma UntanglingStarts(d: seq<Chunk>, orig: Chunk)
    requires Sorted(d)
    ensures Untangling(d, orig, orig, None, Slot(d, orig.off))
  {
    hide Slot, At;
  }

  /** The stored chunk overlaps the start of what is left. */
  lemma TrimStart(d: seq<Chunk>, orig: Chunk, buf: Chunk, tail: Option<Chunk>, i: nat)
    requires Sorted(d) && Untangling(d, orig, buf, tail, i) && i < |d|
    requires d[i].off <= buf.off < MaxOff(d[i]) < MaxOff(buf)
    ensures Untangling(d, orig, From(buf, MaxOff(d[i])), tail, i + 1)
  {
    hide At;
    var rest := From(buf, MaxOff(d[i]));
    assert tail.None?;
    forall x: nat | orig.off <= x < rest.off ensures At(d, x).Some? {
      AtNone(d, x);
      assert x >= buf.off ==> Contains(d[i], x);
    }
    forall j | 0 <= j < i ensures Apart(d[j], rest) {
      assert MaxOff(d[j]) <= d[i].off;
    }
    assert PartOf(rest, buf);
  }

  /** The stored chunk begins inside what is left. */
  lemma SplitAt(d: seq<Chunk>, orig: Chunk, buf: Chunk, tail: Option<Chunk>, i: nat)
    requires Sorted(d) && Untangling(d, orig, buf, tail, i) && i < |d|
    requires buf.off < d[i].off < MaxOff(buf)
    ensures tail.None?
    ensures Untangling(d, orig, Before(buf, d[i].off), Some(From(buf, d[i].off)), i + 1)
  {
    hide At;
    var head, rest := Before(buf, d[i].off), From(buf, d[i].off);
    assert tail.None?;
    assert PartOf(head, buf) && PartOf(rest, buf);
    forall j | 0 <= j < i ensures Apart(d[j], head) {
      assert MaxOff(d[j]) <= d[i].off && Apart(d[j], buf);
    }
  }

  /** The stored chunk only touches what is left. */
  lemma PassBy(d: seq<Chunk>, orig: Chunk, buf: Chunk, tail: Option<Chunk>, i: nat)
    requires Sorted(d) && Untangling(d, orig, buf, tail, i) && i < |d|
    requires !(buf.off >= d[i].off && MaxOff(buf) <= MaxOff(d[i])) && Apart(d[i], buf) && d[i].off <= MaxOff(buf)
    ensures Untangling(d, orig, buf, tail, i + 1)
  {
    hide At;
  }

  /** The stored chunk holds all that is left. */
  lemma Swallowed(d: seq<Chunk>, orig: Chunk, buf: Chunk, tail: Option<Chunk>, i: nat)
    requires Sorted(d) && Untangling(d, orig, buf, tail, i) && i < |d|
    requires buf.off >= d[i].off && MaxOff(buf) <= MaxOff(d[i])
    ensures tail.None? && MaxOff(orig) <= MaxOff(d[i]) && forall x: nat :: Contains(orig, x) ==> At(d, x).Some?
  {
    hide At;
    assert tail.None?;
    forall x: nat | Contains(orig, x) && x >= buf.off ensures At(d, x).Some? {
      AtNone(d, x);
      assert Contains(d[i], x);
    }
  }

  /** No stored chunk from `i` on reaches into what is left. */
  lemma UntanglingEnds(d: seq<Chunk>, orig: Chunk, buf: Chunk, tail: Option<Chunk>, i: nat)
    requires Sorted(d) && Untangling(d, orig, buf, tail, i)
    requires i < |d| ==> d[i].off > MaxOff(buf)
    ensures forall j :: 0 <= j < |d| ==> Apart(d[j], buf) && (buf.data == [] ==> MaxOff(d[j]) != MaxOff(buf))
  {
    hide At;
    forall j | i <= j < |d| ensures d[j].off > MaxOff(buf) {
      assert j > i ==> MaxOff(d[i]) <= d[j].off;
    }
  }

  /**
   Splits an incoming chunk along the chunks already stored: at most one part to store now and one to
   look at again, with every byte in one of them or stored already.
   */
  method Untangle(d: seq<Chunk>, orig: Chunk) returns (kept: Option<Chunk>, tail: Option<Chunk>)
    requires Sorted(d)
    ensures kept.Some? ==> Untangled(d, orig, kept.value, tail)
    ensures kept.None? ==> tail.None? && (exists i :: 0 <= i < |d| && MaxOff(orig) <= MaxOff(d[i]))
    ensures kept.None? ==> forall x: nat :: Contains(orig, x) ==> At(d, x).Some?
    ensures d == [] ==> kept == Some(orig) && tail.None?
  {
    hide Untangling, At, Sorted, Slot;
    var buf := orig;
    tail := None;
    var i := Slot(d, buf.off);
    UntanglingStarts(d, orig);
    while i < |d| && d[i].off <= MaxOff(buf)
      invariant i <= |d| && Untangling(d, orig, buf, tail, i) && (d == [] ==> buf == orig && tail.None?)
    {
      var b := d[i];
      var off := buf.off;
      if off >= b.off && MaxOff(buf) <= MaxOff(b) {
        Swallowed(d, orig, buf, tail, i);
        return None, None;
      }
      if off >= b.off && off < MaxOff(b) {
        TrimStart(d, orig, buf, tail, i);
        buf := From(buf, MaxOff(b));
      } else if off < b.off && MaxOff(buf) > b.off {
        SplitAt(d, orig, buf, tail, i);
        tail := Some(From(buf, b.off));
        buf := Before(buf, b.off);
      } else {
        PassBy(d, orig, buf, tail, i);
      }
      i := i + 1;
    }
    UntanglingEnds(d, orig, buf, tail, i);
    UntanglingYields(d, orig, buf, tail, i);
    kept := Some(buf);
  }

  /** What the overlap loop achieves. */
  ghost predicate Untangled(d: seq<Chunk>, orig: Chunk, kept: Chunk, tail: Option<Chunk>) {
    && PartOf(kept, orig) && (kept.data == [] ==> kept == orig)
    && (forall i :: 0 <= i < |d| ==> Apart(d[i], kept) && (kept.data == [] ==> MaxOff(d[i]) != MaxOff(kept)))
    && (tail.None? ==> MaxOff(kept) == MaxOff(orig))
    && (tail.Some? ==> PartOf(tail.value, orig) && 0 < |tail.value.data| < |orig.data| && tail.value.off == MaxOff(kept)
                       && MaxOff(tail.value) == MaxOff(orig))
    && (forall x: nat :: Contains(orig, x) ==>
          Contains(kept, x) || (tail.Some? && Contains(tail.value, x)) || At(d, x).Some?)
  }

  lemma UntanglingYields(d: seq<Chunk>, orig: Chunk, buf: Chunk, tail: Option<Chunk>, i: nat)
    requires Untangling(d, orig, buf, tail, i)
    requires forall j :: 0 <= j < |d| ==> Apart(d[j], buf) && (buf.data == [] ==> MaxOff(d[j]) != MaxOff(buf))
    ensures Untangled(d, orig, buf, tail)
  {
    hide At;
  }

  // -------------------------------------------------------------------------
  // Absorbing a chunk
  // -------------------------------------------------------------------------

  /** A byte per offset: what was there first stays; new bytes count from `off` on. */
  ghost function Merged(d: seq<Chunk>, c: Chunk, off: nat, x: nat): Option<byte> {
    if At(d, x).Some? then At(d, x) else if x >= off && Contains(c, x) then Some(ByteAt(c, x)) else None
  }

  /** The same, with the bytes of one part still waiting. */
  ghost function Progress(d: seq<Chunk>, c: Chunk, off: nat, waiting: Option<Chunk>, x: nat): Option<byte> {
    if At(d, x).None? && waiting.Some? && Contains(waiting.value, x) then None else Merged(d, c, off, x)
  }

  /** The waiting part from `off` on. */
  ghost predicate LiveRest(q: Chunk, off: nat, buf: Chunk) {
    PartOf(buf, q) && forall x: nat :: Contains(buf, x) <==> Contains(q, x) && x >= off
  }

  lemma StoreStep(d0: seq<Chunk>, d: seq<Chunk>, c: Chunk, off: nat, q: Chunk, buf: Chunk, kept: Chunk, tail: Option<Chunk>, x: nat)
    requires Sorted(d) && PartOf(q, c) && LiveRest(q, off, buf) && Untangled(d, buf, kept, tail)
    requires At(d, x) == Progress(d0, c, off, Some(q), x)
    ensures At(Stored(d, kept), x) == Progress(d0, c, off, tail, x)
  {
    hide At, Sorted, Stored;
    StoredAt(d, kept, x);
    if Contains(kept, x) {
      assert Contains(buf, x) && Contains(q, x) && x >= off && Contains(c, x);
      assert ByteAt(kept, x) == ByteAt(buf, x) == ByteAt(q, x) == ByteAt(c, x);
      AtNone(d, x);
      assert forall i :: 0 <= i < |d| ==> Apart(d[i], kept);
      assert tail.Some? ==> !Contains(tail.value, x);
    }
  }

  lemma DropStep(d0: seq<Chunk>, d: seq<Chunk>, c: Chunk, off: nat, q: Chunk, buf: Chunk, x: nat)
    requires PartOf(q, c) && LiveRest(q, off, buf) && (Contains(buf, x) ==> At(d, x).Some?)
    requires At(d, x) == Progress(d0, c, off, Some(q), x)
    ensures At(d, x) == Progress(d0, c, off, None, x)
  {
    hide At;
  }

  lemma StoreSteps(d0: seq<Chunk>, d: seq<Chunk>, c: Chunk, off: nat, q: Chunk, buf: Chunk, kept: Chunk, tail: Option<Chunk>)
    requires Sorted(d) && PartOf(q, c) && LiveRest(q, off, buf) && Untangled(d, buf, kept, tail)
    ensures buf.off <= kept.off && MaxOff(kept) <= MaxOff(buf) && (kept.data == [] ==> kept == buf)
    ensures kept.data == [] ==> forall i :: 0 <= i < |d| ==> MaxOff(d[i]) != kept.off
    ensures forall i :: 0 <= i < |d| ==> Apart(d[i], kept)
    ensures match tail
            case None => MaxOff(kept) == MaxOff(buf)
            case Some(t) => PartOf(t, c) && 0 < |t.data| < |buf.data| && MaxOff(t) == MaxOff(buf)
    ensures (forall x: nat :: At(d, x) == Progress(d0, c, off, Some(q), x)) ==>
              forall x: nat :: At(Stored(d, kept), x) == Progress(d0, c, off, tail, x)
  {
    hide At, Sorted, Stored, Progress;
    if forall x: nat :: At(d, x) == Progress(d0, c, off, Some(q), x) {
      forall x: nat ensures At(Stored(d, kept), x) == Progress(d0, c, off, tail, x) {
        StoreStep(d0, d, c, off, q, buf, kept, tail, x);
      }
    }
  }

  lemma DropSteps(d0: seq<Chunk>, d: seq<Chunk>, c: Chunk, off: nat, q: Chunk, buf: Chunk)
    requires PartOf(q, c) && LiveRest(q, off, buf) && (forall x: nat :: Contains(buf, x) ==> At(d, x).Some?)
    ensures (forall x: nat :: At(d, x) == Progress(d0, c, off, Some(q), x)) ==>
              forall x: nat :: At(d, x) == Progress(d0, c, off, None, x)
  {
    hide At, Progress;
    if forall x: nat :: At(d, x) == Progress(d0, c, off, Some(q), x) {
      forall x: nat ensures At(d, x) == Progress(d0, c, off, None, x) {
        DropStep(d0, d, c, off, q, buf, x);
      }
    }
  }

  lemma SelfPart(c: Chunk)
    ensures PartOf(c, c)
  {
  }

  lemma CutFront(q: Chunk, off: nat)
    requires off <= MaxOff(q)
    ensures LiveRest(q, off, if off > q.off then From(q, off) else q)
  {
  }

  /** A chunk behind everything received so far overlaps nothing. */
  lemma Beyond(d: seq<Chunk>, buf: Chunk)
    requires buf.data != [] && forall i :: 0 <= i < |d| ==> MaxOff(d[i]) <= buf.off
    ensures Untangled(d, buf, buf, None)
  {
  }

  /** `copy_from_slice` into `out[n..]`. */
  method CopyTo(out: array<byte>, n: nat, bytes: seq<byte>)
    requires n + |bytes| <= out.Length
    modifies out
    ensures out[..] == old(out[..n]) + bytes + old(out[n + |bytes|..])
  {
    forall k | 0 <= k < |bytes| {
      out[n + k] := bytes[k];
    }
  }

  class RecvBuf {
    var data: seq<Chunk>
    /** How much of the first chunk has been read (`pos - start`); no other chunk can be partly read. */
    var taken: nat
    var off: nat
    var len: nat
    var flow: FlowControl.Flow
    var finOff: Option<nat>
    var drain: bool

    /** Chunks are in order, apart, not yet read, and within what the flow control and the final size allow. */
    ghost predicate Valid()
      reads this
    {
      && Sorted(data) && (forall i :: 0 <= i < |data| ==> off <= data[i].off && MaxOff(data[i]) <= len)
      && (forall i :: 0 <= i < |data| && data[i].data == [] ==> finOff == Some(data[i].off))
      && flow.consumed <= off <= len <= flow.maxData
      && (finOff.Some? ==> len <= finOff.value <= flow.maxData)
      && (drain ==> data == [])
      && (taken > 0 ==> data != [] && data[0].off == off < MaxOff(data[0]))
    }

    constructor (maxData: nat, maxWindow: nat)
      ensures Valid() && data == [] && off == len == taken == 0 && finOff == None && !drain
      ensures flow.consumed == 0 && flow.maxData == maxData && flow.maxWindow == maxWindow && flow.lastUpdate == None
      ensures flow.window <= DEFAULT_STREAM_WINDOW && flow.window <= maxData
    {
      data, taken, off, len, finOff, drain := [], 0, 0, 0, None, false;
      var window := if maxData <= DEFAULT_STREAM_WINDOW then maxData else DEFAULT_STREAM_WINDOW;
      flow := FlowControl.Flow(0, maxData, window, maxWindow, None);
    }

    /** Stores a part that overlaps nothing; a draining stream only takes note of its end. */
    method StoreIn(c: Chunk)
      requires Valid() && off <= c.off && MaxOff(c) <= flow.maxData && (finOff.Some? ==> MaxOff(c) <= finOff.value)
      requires (forall i :: 0 <= i < |data| ==> Apart(data[i], c)) && (c.data == [] ==> finOff == Some(c.off) && len <= c.off)
      requires c.data == [] ==> forall i :: 0 <= i < |data| ==> MaxOff(data[i]) != c.off
      modifies this`data, this`len
      ensures Valid() && len == if old(len) < MaxOff(c) then MaxOff(c) else old(len)
      ensures data == (if drain then old(data) else Stored(old(data), c)) && (drain || data != [])
      ensures taken > 0 ==> data[0] == old(data)[0]
    {
      hide At, Slot, Stored, Sorted;
      len := if len < MaxOff(c) then MaxOff(c) else len;
      if !drain {
        StoredSorted(data, c);
        if taken > 0 {
          StoredBehind(data, c, off);
        }
        data := Stored(data, c);
      }
    }

    /** Cuts the chunk along what is stored and stores what is new. */
    method Absorb(c: Chunk)
      requires Valid() && off <= MaxOff(c) <= flow.maxData && (finOff.Some? ==> MaxOff(c) <= finOff.value)
      requires if c.data == [] then len <= c.off && finOff == Some(c.off) else off < MaxOff(c)
      modifies this`data, this`len
      ensures Valid() && len == if old(len) < MaxOff(c) then MaxOff(c) else old(len)
      ensures drain ==> data == old(data)
      ensures !drain ==> data != [] && forall x: nat :: At(data, x) == Merged(old(data), c, off, x)
      ensures taken > 0 ==> data[0] == old(data)[0]
      ensures old(data) == [] && off <= c.off && !drain ==> data == [c]
    {
      hide At, Sorted, Stored, PartOf, Slot;
      ghost var d0 := data;
      var waiting := Some(c);
      SelfPart(c);
      while waiting.Some?
        invariant Valid() && old(len) <= len <= (if old(len) < MaxOff(c) then MaxOff(c) else old(len))
        invariant (drain ==> data == d0) && (taken > 0 ==> data[0] == d0[0])
        invariant d0 == [] && off <= c.off && !drain ==> if waiting.Some? then data == [] && waiting == Some(c) else data == [c]
        invariant waiting.Some? ==> PartOf(waiting.value, c) && off <= MaxOff(waiting.value) == MaxOff(c)
        invariant waiting.Some? && waiting.value.data == [] ==> waiting.value == c && len == old(len)
        invariant waiting.None? ==> len >= MaxOff(c) && (drain || data != [])
        invariant !drain ==> forall x: nat :: At(data, x) == Progress(d0, c, off, waiting, x)
        decreases if waiting.None? then 0 else |waiting.value.data| + 1
      {
        waiting := AbsorbPart(waiting.value, d0, c);
      }
    }

    /** One turn of the loop: returns the part to look at next, if any. */
    method AbsorbPart(q: Chunk, ghost d0: seq<Chunk>, ghost c: Chunk) returns (waiting: Option<Chunk>)
      requires Valid() && PartOf(q, c) && off <= MaxOff(q) == MaxOff(c) <= flow.maxData
      requires finOff.Some? ==> MaxOff(c) <= finOff.value
      requires if q.data == [] then len <= q.off && finOff == Some(q.off) else off < MaxOff(q)
      requires !drain ==> forall x: nat :: At(data, x) == Progress(d0, c, off, Some(q), x)
      modifies this`data, this`len
      ensures Valid() && old(len) <= len <= (if old(len) < MaxOff(c) then MaxOff(c) else old(len))
      ensures drain ==> data == old(data)
      ensures waiting.Some? ==> PartOf(waiting.value, c) && off <= MaxOff(waiting.value) == MaxOff(c)
                                && |waiting.value.data| < |q.data| && waiting.value.data != []
      ensures waiting.None? ==> len >= MaxOff(c) && (drain || data != [])
      ensures !drain ==> forall x: nat :: At(data, x) == Progress(d0, c, off, waiting, x)
      ensures taken > 0 ==> data[0] == old(data)[0]
      ensures old(data) == [] && off <= q.off && !drain ==> waiting.None? && data == [q]
    {
      hide At, Sorted, Stored, PartOf, Slot, LiveRest, Progress, Merged, Untangled, Apart;
      CutFront(q, off);
      var buf := if off > q.off then From(q, off) else q;
      var kept := Some(buf);
      if buf.off < len || buf.data == [] {
        kept, waiting := Untangle(data, buf);
      } else {
        Beyond(data, buf);
        waiting := None;
      }
      if kept.Some? {
        StoreSteps(d0, data, c, off, q, buf, kept.value, waiting);
        StoredAlone(kept.value);
        StoreIn(kept.value);
      } else {
        DropSteps(d0, data, c, off, q, buf);
      }
    }

    /** Inserts a chunk: the byte that came first stays, the final size cannot change, an error changes nothing. */
    method Write(c: Chunk) returns (r: Result<()>)
      requires Valid()
      modifies this`data, this`len, this`finOff
      ensures Valid()
      ensures match WriteError(flow.maxData, old(finOff), old(len), c)
              case Some(e) => r == Err(e) && data == old(data) && len == old(len) && finOff == old(finOff)
              case None => r.Ok? && finOff == if old(finOff).None? && c.fin then Some(MaxOff(c)) else old(finOff)
      ensures r.Ok? ==> len == if Carries(c, old(finOff)) && old(len) < MaxOff(c) then MaxOff(c) else old(len)
      ensures drain ==> data == old(data)
      ensures r.Ok? && !drain ==> forall x: nat :: At(data, x) == Merged(old(data), c, off, x)
      ensures taken > 0 ==> data[0] == old(data)[0]
      ensures r.Ok? && !drain && old(data) == [] && off <= c.off && c.data != [] ==> data == [c]
      ensures r.Ok? && !drain && c.fin && old(finOff).None? ==> (data == [] <==> c.data != [] && MaxOff(c) <= off)
    {
      if MaxOff(c) > flow.maxData {
        return Err(FlowLimit);
      }
      if finOff.Some? {
        if MaxOff(c) > finOff.value {
          return Err(FinalSize);
        }
        if c.fin && finOff.value != MaxOff(c) {
          return Err(FinalSize);
        }
      }
      if c.fin && MaxOff(c) < len {
        return Err(FinalSize);
      }
      if finOff.Some? && c.data == [] {
        return Ok(());
      }
      if c.fin {
        finOff := Some(MaxOff(c));
      }
      if !c.fin && c.data == [] {
        return Ok(());
      }
      if off >= MaxOff(c) && c.data != [] {
        assert c.fin ==> data == [] || data[0].data == [];
        return Ok(());
      }
      Absorb(c);
      return Ok(());
    }

    predicate Ready()
      reads this
    {
      data != [] && data[0].off == off
    }

    /** Copies the front of the first chunk to `out[n..]`. */
    method EmitChunk(out: array<byte>, n: nat) returns (m: nat)
      requires Valid() && Ready() && n < out.Length
      modifies this`data, this`taken, this`off, out
      ensures Valid() && n <= m <= out.Length && off == old(off) + (m - n)
      ensures out[..n] == old(out[..n]) && out[m..] == old(out[m..])
      ensures forall k :: n <= k < m ==> At(old(data), old(off) + (k - n)) == Some(out[k])
      ensures forall x: nat :: x >= off ==> At(data, x) == At(old(data), x)
      ensures |data| < |old(data)| || (m == out.Length && |data| == |old(data)|)
      ensures taken == if |data| < |old(data)| then 0 else old(taken) + (m - n)
      ensures old(|data[0].data|) > out.Length - n ==> m == out.Length && |data| == |old(data)|
    {
      hide At, Sorted, Taken;
      var buf := data[0];
      var take := if |buf.data| < out.Length - n then |buf.data| else out.Length - n;
      TakenFrom(data, take);
      TakenBytes(data, take);
      CopyTo(out, n, buf.data[..take]);
      m := n + take;
      off := off + take;
      taken := if take < |buf.data| then taken + take else 0;
      data := Taken(data, take);
    }

    /** Reads out contiguous bytes, as many as there are or as fit; says whether the stream has ended. */
    method Emit(out: array<byte>) returns (r: Result<(nat, bool)>)
      requires Valid()
      modifies this`data, this`taken, this`off, this`flow, out
      ensures Valid() && (r.Ok? <==> old(Ready())) && (r.Err? ==> r == Err(Done))
      ensures r.Err? ==> data == old(data) && off == old(off) && flow == old(flow) && out[..] == old(out[..])
      ensures r.Ok? ==>
                var (n, fin) := r.value;
                && n <= out.Length && off == old(off) + n && out[n..] == old(out[n..])
                && flow == FlowControl.Apply(old(flow), FlowControl.Consume(n))
                && (forall k :: 0 <= k < n ==> At(old(data), old(off) + k) == Some(out[k]))
                && (forall x: nat :: x >= off ==> At(data, x) == At(old(data), x))
                && (n == out.Length || At(data, off).None?)
                && (fin <==> finOff == Some(off))
                && (old(|data[0].data|) > out.Length ==> n == out.Length && taken == old(taken) + n)
    {
      hide At, Sorted;
      if !Ready() {
        return Err(Done);
      }
      var n := 0;
      while n < out.Length && Ready()
        invariant Valid() && flow == old(flow) && n <= out.Length && off == old(off) + n && out[n..] == old(out[n..])
        invariant forall k :: 0 <= k < n ==> At(old(data), old(off) + k) == Some(out[k])
        invariant forall x: nat :: x >= off ==> At(data, x) == At(old(data), x)
        invariant n == 0 ==> (data, taken) == old((data, taken)) || old(|data[0].data|) <= out.Length
        invariant n > 0 && old(|data[0].data|) > out.Length ==> n == out.Length && taken == old(taken) + n
        decreases |data| + (out.Length - n)
      {
        n := EmitChunk(out, n);
      }
      if n < out.Length {
        NothingAt(data, off);
      }
      flow := FlowControl.Apply(flow, FlowControl.Consume(n));
      return Ok((n, finOff == Some(off)));
    }

    /** Stops buffering; what has arrived counts as read. */
    method Shutdown() returns (r: Result<()>)
      requires Valid()
      modifies this`data, this`taken, this`off, this`drain
      ensures Valid() && drain && (r.Ok? <==> !old(drain)) && (r.Err? ==> r == Err(Done))
      ensures data == [] && off == if r.Ok? then len else old(off)
    {
      if drain {
        return Err(Done);
      }
      drain := true;
      data, taken := [], 0;
      off := len;
      return Ok(());
    }

    /** The peer is within its limit, so the test of the flow control cannot underflow. */
    method AlmostFull() returns (b: bool)
      requires Valid()
      ensures b <==> finOff.None? && FlowControl.NeedsUpdate(flow)
    {
      var available: nat := flow.maxData - flow.consumed;
      return finOff.None? && available < flow.window / 2;
    }

    method UpdateMaxData(now: int)
      requires Valid() && flow.maxData <= FlowControl.Next(flow)
      modifies this`flow
      ensures Valid() && flow == FlowControl.Committed(old(flow), now)
    {
      flow := FlowControl.Committed(flow, now);
    }

    /**
     True exactly when the end is known, every byte up to it is here, and the first chunk is not partly
     read: the test looks at where a chunk began, not at where it is read next.
     */
    method IsFullyReadable() returns (b: bool)
      requires Valid()
      ensures b <==> taken == 0 && finOff.Some? && forall x: nat :: off <= x < finOff.value ==> At(data, x).Some?
    {
      hide At;
      if finOff.None? {
        return false;
      }
      var end := off;
      for i := 0 to |data|
        invariant (i == 0 ==> end == off) && (i > 0 ==> taken == 0)
        invariant off <= end <= len && (forall x: nat :: off <= x < end ==> At(data, x).Some?)
        invariant forall j :: 0 <= j < i ==> MaxOff(data[j]) <= end
        invariant forall j :: i <= j < |data| ==> end <= data[j].off
      {
        var began := data[i].off - if i == 0 then taken else 0;
        if end != began {
          AtNone(data, end);
          return false;
        }
        forall x: nat | end <= x < MaxOff(data[i]) ensures At(data, x).Some? {
          AtNone(data, x);
          assert Contains(data[i], x);
        }
        end := MaxOff(data[i]);
      }
      AtNone(data, end);
      return Some(end) == finOff;
    }
  }

  // -------------------------------------------------------------------------
  // Whole streams
  // -------------------------------------------------------------------------

  datatype Event = Arrive(c: Chunk) | Read(cap: nat)

  /** The chunk is a piece of the stream `s`, and carries the fin flag only at its end. */
  ghost predicate PieceOf(c: Chunk, s: seq<byte>) {
    MaxOff(c) <= |s| && c.data == s[c.off..MaxOff(c)] && (c.fin ==> MaxOff(c) == |s|)
  }

  ghost predicate Arrived(events: seq<Event>, x: nat) {
    exists i :: 0 <= i < |events| && events[i].Arrive? && Contains(events[i].c, x)
  }

  /** What was read and what is buffered, together, is what arrived. */
  ghost predicate Delivered(b: RecvBuf, out: seq<byte>, s: seq<byte>, seen: seq<Event>)
    reads b
  {
    && b.Valid() && !b.drain && |s| <= b.flow.maxData
    && b.len <= |s| && (b.finOff.Some? ==> b.finOff.value == |s|)
    && |out| == b.off && out <= s
    && (forall x: nat :: x < b.off ==> Arrived(seen, x))
    && (forall x: nat :: x >= b.off ==> Buffered(b.data, s, seen, x))
  }

  ghost predicate Buffered(d: seq<Chunk>, s: seq<byte>, seen: seq<Event>, x: nat) {
    (At(d, x).Some? <==> Arrived(seen, x)) && (At(d, x).Some? ==> x < |s| && At(d, x).value == s[x])
  }

  lemma ArrivedMore(seen: seq<Event>, e: Event, x: nat)
    ensures Arrived(seen + [e], x) <==> Arrived(seen, x) || (e.Arrive? && Contains(e.c, x))
  {
    var more := seen + [e];
    if Arrived(seen, x) {
      var i :| 0 <= i < |seen| && seen[i].Arrive? && Contains(seen[i].c, x);
      assert more[i] == seen[i];
    }
    if e.Arrive? && Contains(e.c, x) {
      assert more[|seen|] == e;
    }
  }

  lemma MergedBuffered(d: seq<Chunk>, c: Chunk, off: nat, d1: seq<Chunk>, s: seq<byte>, seen: seq<Event>, x: nat)
    requires PieceOf(c, s) && x >= off && Buffered(d, s, seen, x) && At(d1, x) == Merged(d, c, off, x)
    ensures Buffered(d1, s, seen + [Arrive(c)], x)
  {
    hide At, Arrived;
    ArrivedMore(seen, Arrive(c), x);
  }

  method Receive(b: RecvBuf, c: Chunk, ghost out: seq<byte>, ghost s: seq<byte>, ghost seen: seq<Event>)
    requires Delivered(b, out, s, seen) && PieceOf(c, s)
    modifies b
    ensures Delivered(b, out, s, seen + [Arrive(c)])
  {
    hide At, Arrived, Merged, Buffered, PieceOf, Sorted;
    assert MaxOff(c) <= |s| && (c.fin ==> MaxOff(c) == |s|) by { PieceEnds(c, s); }
    var r := b.Write(c);
    forall x: nat | x < b.off ensures Arrived(seen + [Arrive(c)], x) {
      ArrivedMore(seen, Arrive(c), x);
    }
    forall x: nat | x >= b.off ensures Buffered(b.data, s, seen + [Arrive(c)], x) {
      MergedBuffered(old(b.data), c, b.off, b.data, s, seen, x);
    }
  }

  lemma PieceEnds(c: Chunk, s: seq<byte>)
    requires PieceOf(c, s)
    ensures MaxOff(c) <= |s| && (c.fin ==> MaxOff(c) == |s|)
  {
  }

  method ReadSome(b: RecvBuf, cap: nat, out: seq<byte>, ghost s: seq<byte>, ghost seen: seq<Event>) returns (more: seq<byte>)
    requires Delivered(b, out, s, seen)
    modifies b`data, b`taken, b`off, b`flow
    ensures Delivered(b, more, s, seen)
    ensures cap > b.len - old(b.off) ==> !Arrived(seen, b.off)
  {
    hide Arrived, Sorted;
    var a := new byte[cap];
    ghost var d, off := b.data, b.off;
    var r := b.Emit(a);
    if r.Err? {
      NothingAt(b.data, b.off);
      assert Buffered(b.data, s, seen, b.off);
      return out;
    }
    var n := r.value.0;
    more := out + a[..n];
    forall x: nat | off <= x < off + n ensures x < |s| && s[x] == a[x - off] && Arrived(seen, x) {
      assert Buffered(d, s, seen, x);
      assert At(d, off + (x - off)) == Some(a[x - off]);
    }
    forall k | 0 <= k < |more| ensures k < |s| && more[k] == s[k] {
    }
    forall x: nat | x >= b.off ensures Buffered(b.data, s, seen, x) {
      assert Buffered(d, s, seen, x);
    }
    assert Buffered(b.data, s, seen, b.off);
  }

  /**
   Whatever the order, overlap and repetition of the pieces of a stream and however reads are mixed in,
   the bytes read are the stream up to the first byte that has not arrived.
   */
  method Reassemble(events: seq<Event>, maxData: nat, maxWindow: nat, ghost s: seq<byte>)
    returns (out: seq<byte>)
    requires |s| <= maxData && forall e <- events :: e.Arrive? ==> PieceOf(e.c, s)
    ensures out <= s
    ensures (forall x: nat :: x < |out| ==> Arrived(events, x)) && !Arrived(events, |out|)
  {
    hide At, Sorted, Buffered, PieceOf;
    var b := new RecvBuf(maxData, maxWindow);
    out := [];
    FreshDelivers(b, s);
    for i := 0 to |events|
      invariant fresh(b) && Delivered(b, out, s, events[..i])
    {
      var e := events[i];
      assert events[..i + 1] == events[..i] + [e];
      match e {
        case Arrive(c) => Receive(b, c, out, s, events[..i]);
        case Read(cap) =>
          out := ReadSome(b, cap, out, s, events[..i]);
          SeenRead(b, out, s, events[..i], cap);
      }
    }
    assert events[..|events|] == events;
    out := ReadSome(b, b.len - b.off + 1, out, s, events);
  }

  /**
   A stream that is read to its last byte before the fin flag comes in on a repetition of that byte: it
   is finished, but there is nothing left to read that would tell the reader so.
   */
  method FinOnRepetition(payload: seq<byte>) returns (finished: bool, readable: bool)
    requires payload != []
    ensures finished && !readable
  {
    hide At, Sorted, Merged;
    var b := new RecvBuf(|payload|, |payload|);
    var out := new byte[|payload|];
    var first := b.Write(Chunk(payload, 0, false));
    AloneAt(Chunk(payload, 0, false));
    var read := b.Emit(out);
    var again := b.Write(Chunk(payload, 0, true));
    finished := b.finOff == Some(b.off);
    readable := b.Ready();
  }

  /** All of a stream is here, and still is after one byte was read; the second answer denies it. */
  method PartlyReadStream(payload: seq<byte>) returns (before: bool, after: bool)
    requires |payload| >= 2
    ensures before && !after
  {
    hide At, Sorted, Merged;
    var b := new RecvBuf(|payload|, |payload|);
    var out := new byte[1];
    var r := b.Write(Chunk(payload, 0, true));
    AloneAt(Chunk(payload, 0, true));
    before := b.IsFullyReadable();
    var n := b.Emit(out);
    after := b.IsFullyReadable();
  }

  lemma FreshDelivers(b: RecvBuf, s: seq<byte>)
    requires b.Valid() && b.data == [] && b.off == b.len == 0 && b.finOff == None && !b.drain && |s| <= b.flow.maxData
    ensures Delivered(b, [], s, [])
  {
  }

  lemma SeenRead(b: RecvBuf, out: seq<byte>, s: seq<byte>, seen: seq<Event>, cap: nat)
    requires Delivered(b, out, s, seen)
    ensures Delivered(b, out, s, seen + [Read(cap)])
  {
    hide At, Arrived, Sorted;
    forall x: nat ensures Arrived(seen + [Read(cap)], x) <==> Arrived(seen, x) {
      ArrivedMore(seen, Read(cap), x);
    }
    forall x: nat | x >= b.off ensures Buffered(b.data, s, seen + [Read(cap)], x) {
      assert Buffered(b.data, s, seen, x);
    }
  }

  /** The list with `n` bytes of its first chunk consumed; a chunk is removed with its last byte. */
  function Taken(d: seq<Chunk>, n: nat): seq<Chunk>
    requires d != [] && n <= |d[0].data|
  {
    if n < |d[0].data| then [From(d[0], d[0].off + n)] + d[1..] else d[1..]
  }

  lemma TakenFrom(d: seq<Chunk>, n: nat)
    requires Sorted(d) && d != [] && n <= |d[0].data|
    ensures Sorted(Taken(d, n)) && forall i :: 0 <= i < |Taken(d, n)| ==> d[0].off + n <= Taken(d, n)[i].off
    ensures forall i :: 0 <= i < |Taken(d, n)| && (i > 0 || n == |d[0].data|) ==> Taken(d, n)[i] in d
    ensures |Taken(d, n)| == if n < |d[0].data| then |d| else |d| - 1
    ensures n < |d[0].data| ==> Taken(d, n)[0] == From(d[0], d[0].off + n)
  {
    hide At;
    var t := Taken(d, n);
    if n < |d[0].data| {
      assert forall i :: 0 < i < |t| ==> t[i] == d[i];
    } else {
      assert forall i :: 0 <= i < |t| ==> t[i] == d[i + 1];
    }
  }

  lemma TakenBytes(d: seq<Chunk>, n: nat)
    requires d != [] && n <= |d[0].data|
    ensures forall k: nat :: k < n ==> At(d, d[0].off + k) == Some(d[0].data[k])
    ensures forall x: nat :: x >= d[0].off + n ==> At(Taken(d, n), x) == At(d, x)
  {
    if n < |d[0].data| {
      assert Taken(d, n)[1..] == d[1..];
    }
  }

  /** What a chunk must satisfy to be accepted. */
  function WriteError(maxData: nat, finOff: Option<nat>, len: nat, c: Chunk): Option<Error> {
    if MaxOff(c) > maxData then Some(FlowLimit)
    else if finOff.Some? && (MaxOff(c) > finOff.value || (c.fin && MaxOff(c) != finOff.value)) then Some(FinalSize)
    else if c.fin && MaxOff(c) < len then Some(FinalSize)
    else None
  }

  /** Whether an accepted chunk says anything new about how far the stream goes. */
  predicate Carries(c: Chunk, finOff: Option<nat>) {
    c.data != [] || (c.fin && finOff.None?)
  }

  /** If the next byte is here, the stream is readable. */
  lemma FrontIsReady(d: seq<Chunk>, off: nat)
    requires Sorted(d) && (forall i :: 0 <= i < |d| ==> off <= d[i].off) && At(d, off).Some?
    ensures d != [] && d[0].off == off
  {
    AtNone(d, off);
    var i :| 0 <= i < |d| && Contains(d[i], off);
    assert i > 0 ==> MaxOff(d[0]) <= d[i].off;
  }

  /** A chunk that overlaps nothing goes behind a first chunk that is being read. */
  lemma StoredBehind(d: seq<Chunk>, c: Chunk, off: nat)
    requires d != [] && d[0].off == off < MaxOff(d[0]) && off <= c.off && Apart(d[0], c)
    requires c.data == [] ==> MaxOff(d[0]) < c.off
    ensures Stored(d, c)[0] == d[0]
  {
  }

  lemma AloneAt(c: Chunk)
    ensures forall x: nat :: At([c], x).Some? <==> Contains(c, x)
  {
    forall x: nat ensures At([c], x).Some? <==> Contains(c, x) {
      AtOne(c, x);
    }
  }

  lemma StoredAlone(c: Chunk)
    ensures Stored([], c) == [c]
  {
  }

  lemma NothingAt(d: seq<Chunk>, off: nat)
    requires Sorted(d) && (d != [] ==> d[0].off > off)
    ensures At(d, off).None?
  {
    AtNone(d, off);
  }
}
