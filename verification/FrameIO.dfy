/**
 The printer and the parser of quiche/src/frame.rs over the byte cursors, with their loops: padding,
 acknowledgement blocks and the nested congestion list.
 */
module FrameIO {
  import opened Common
  import opened Varints
  import opened Cursors
  import opened RangeSpec
  import opened RangeSets
  import opened FrameSpec
  import opened FrameProofs
  import opened FrameSafety
  import opened FramePayload
  import opened FrameReaders

  // -------------------------------------------------------------------------
  // Printing
  // -------------------------------------------------------------------------

  /**
   Printing `bytes` at the cursor: it succeeds exactly when they fit; a failure has written a proper
   prefix of them, as far as whole fields fit, and nothing outside it.
   */
  ghost predicate Printed(before: seq<byte>, off: nat, after: seq<byte>, off': nat, bytes: seq<byte>, ok: bool) {
    && off <= off' <= off + |bytes|
    && (ok <==> off + |bytes| <= |before|)
    && (ok ==> off' == off + |bytes|)
    && Wrote(before, off, after, off', bytes[..off' - off])
  }

  /** A printed part, then the rest of it. */
  lemma PrintedThen(a: seq<byte>, i: nat, b: seq<byte>, j: nat, c: seq<byte>, k: nat, x: seq<byte>, y: seq<byte>, ok: bool)
    requires Wrote(a, i, b, j, x) && Printed(b, j, c, k, y, ok)
    ensures Printed(a, i, c, k, x + y, ok)
  {
    WroteTwice(a, i, b, j, c, k, x, y[..k - j]);
    assert (x + y)[..k - i] == x + y[..k - j];
  }

  lemma NothingPrinted(a: seq<byte>, i: nat, bytes: seq<byte>)
    requires i <= |a| < i + |bytes|
    ensures Printed(a, i, a, i, bytes, false)
  {
    assert a == a[..i] + [] + a[i..];
  }

  /** One put call. */
  method PutField(b: OctetsMut, f: Field) returns (r: Result<()>)
    requires b.Valid() && (f.V? ==> f.v <= MAX_VARINT)
    modifies b, b.buf
    ensures b.Valid() && (r.Ok? || r == Err(BufferTooShort))
    ensures r.Ok? <==> old(b.off) + |FieldBytes(f)| <= b.buf.Length
    ensures r.Ok? ==> Wrote(old(b.buf[..]), old(b.off), b.buf[..], b.off, FieldBytes(f))
    ensures r.Err? ==> b.off == old(b.off) && b.buf[..] == old(b.buf[..])
  {
    match f {
      case V(v) => r := b.PutVarint(v);
      case V2(v) => r := b.PutVarintWithLen(v, 2);
      case U(v, width) => r := b.PutUint(v, width);
      case B(bytes) => r := b.PutBytes(bytes);
    }
  }

  /** A straight run of put calls; the first that does not fit ends it. */
  method PutAll(b: OctetsMut, ps: Puts) returns (r: Result<()>)
    requires b.Valid() && Puttable(ps)
    modifies b, b.buf
    ensures b.Valid() && (r.Ok? || r == Err(BufferTooShort))
    ensures Printed(old(b.buf[..]), old(b.off), b.buf[..], b.off, Encode(ps, []), r.Ok?)
    decreases ps
  {
    match ps {
      case End =>
        assert b.buf[..] == b.buf[..][..b.off] + [] + b.buf[..][b.off..];
        return Ok(());
      case Put(f, next) =>
        ghost var a, i := b.buf[..], b.off;
        EncodeAppends(next, []);
        r := PutField(b, f);
        if r.Err? {
          NothingPrinted(a, i, Encode(ps, []));
          return;
        }
        ghost var m, j := b.buf[..], b.off;
        r := PutAll(b, next);
        PrintedThen(a, i, m, j, b.buf[..], b.off, FieldBytes(f), Encode(next, []), r.Ok?);
    }
  }

  /** The put calls of `ps` followed by those of `next` write the two encodings one after the other. */
  lemma EncodeThen(ps: Puts, tail: seq<byte>)
    ensures Encode(ps, tail) == Encode(ps, []) + tail
  {
    EncodeAppends(ps, tail);
  }

  /** The four leading fields of an acknowledgement. */
  function AckHead(last: Range, delay: nat, count: nat): Puts
    requires last.start < last.end
  {
    Put(V(last.end - 1), Put(V(delay), Put(V(count), Put(V(last.end - 1 - last.start), End))))
  }

  lemma AckSplit(delay: nat, rs: seq<Range>, ecn: Option<EcnCounts>)
    requires Canonical(rs) && rs != []
    ensures var last := rs[|rs| - 1];
            var blocks := BlockPuts(rs[..|rs| - 1], last.start, EcnPuts(ecn));
            && Encode(AckPuts(delay, rs, ecn), []) == Encode(AckHead(last, delay, |rs| - 1), []) + Encode(blocks, [])
            && (Puttable(AckPuts(delay, rs, ecn)) ==> Puttable(AckHead(last, delay, |rs| - 1)) && Puttable(blocks))
  {
    hide Prepend, BlockPuts, EcnPuts, Encode;
    var last := rs[|rs| - 1];
    Unroll();
    PuttableUnrolls();
    PuttableRolls();
    EncodeThen(AckHead(last, delay, |rs| - 1), Encode(BlockPuts(rs[..|rs| - 1], last.start, EcnPuts(ecn)), []));
  }

  lemma BlockSplit(rs: seq<Range>, smallest: nat, next: Puts)
    requires Canonical(rs) && rs != [] && rs[|rs| - 1].end < smallest
    ensures var b := rs[|rs| - 1];
            var one := Put(V(smallest - b.end - 1), Put(V(b.end - 1 - b.start), End));
            var more := BlockPuts(rs[..|rs| - 1], b.start, next);
            && Encode(BlockPuts(rs, smallest, next), []) == Encode(one, []) + Encode(more, [])
            && (Puttable(BlockPuts(rs, smallest, next)) ==> Puttable(one) && Puttable(more))
  {
    hide Prepend, Encode;
    var b := rs[|rs| - 1];
    Unroll();
    PuttableUnrolls();
    PuttableRolls();
    EncodeThen(Put(V(smallest - b.end - 1), Put(V(b.end - 1 - b.start), End)),
               Encode(BlockPuts(rs[..|rs| - 1], b.start, next), []));
  }

  /** A written part followed by nothing that fits. */
  lemma StoppedAfter(a: seq<byte>, i: nat, b: seq<byte>, j: nat, c: seq<byte>, k: nat, x: seq<byte>, y: seq<byte>, z: seq<byte>)
    requires Wrote(a, i, b, j, x) && Printed(b, j, c, k, y, false)
    ensures Printed(a, i, c, k, x + (y + z), false)
  {
    PrintedThen(a, i, b, j, c, k, x, y, false);
    assert (x + (y + z))[..k - i] == (x + y)[..k - i];
  }

  /**
   Prints the acknowledged ranges from the highest down. The gap before each block is well defined
   because the ranges of a `RangeSet` never touch.
   */
  method CommonAckToBytes(b: OctetsMut, delay: nat, rs: seq<Range>, ecn: Option<EcnCounts>) returns (r: Result<()>)
    requires b.Valid() && Canonical(rs) && rs != [] && Puttable(AckPuts(delay, rs, ecn))
    modifies b, b.buf
    ensures b.Valid() && (r.Ok? || r == Err(BufferTooShort))
    ensures Printed(old(b.buf[..]), old(b.off), b.buf[..], b.off, Encode(AckPuts(delay, rs, ecn), []), r.Ok?)
  {
    hide Encode, BlockPuts, Puttable, AckPuts;
    ghost var a, off0 := b.buf[..], b.off;
    AckSplit(delay, rs, ecn);
    var n := |rs| - 1;
    var first := rs[n];
    var head := AckHead(first, delay, n);
    ghost var todo := Encode(BlockPuts(rs[..n], first.start, EcnPuts(ecn)), []);
    r := PutAll(b, head);
    if r.Err? {
      NothingBefore(a, off0);
      StoppedAfter(a, off0, a, off0, b.buf[..], b.off, [], Encode(head, []), todo);
      assert [] + (Encode(head, []) + todo) == Encode(head, []) + todo;
      return;
    }
    FullyPrinted(a, off0, b.buf[..], b.off, Encode(head, []));
    ghost var m, j := b.buf[..], b.off;
    r := PutBlocks(b, rs[..n], first.start, EcnPuts(ecn));
    PrintedThen(a, off0, m, j, b.buf[..], b.off, Encode(head, []), todo, r.Ok?);
  }

  /** The block loop of `common_ack_to_bytes`, with its running `smallest_ack`, and what follows it. */
  method PutBlocks(b: OctetsMut, rs: seq<Range>, highest: nat, next: Puts) returns (r: Result<()>)
    requires b.Valid() && Canonical(rs) && (rs != [] ==> rs[|rs| - 1].end < highest)
    requires Puttable(BlockPuts(rs, highest, next))
    modifies b, b.buf
    ensures b.Valid() && (r.Ok? || r == Err(BufferTooShort))
    ensures Printed(old(b.buf[..]), old(b.off), b.buf[..], b.off, Encode(BlockPuts(rs, highest, next), []), r.Ok?)
  {
    hide Encode, BlockPuts, Puttable, Wrote, Printed;
    ghost var a, off0 := b.buf[..], b.off;
    NothingBefore(a, off0);
    ghost var done: seq<byte>, todo := [], Encode(BlockPuts(rs, highest, next), []);
    ghost var all := todo;
    assert all == done + todo && rs[..|rs|] == rs;
    var smallest: nat := highest;
    var i := |rs|;
    while i > 0
      invariant 0 <= i <= |rs| && b.Valid()
      invariant i > 0 ==> rs[i - 1].end < smallest
      invariant Puttable(BlockPuts(rs[..i], smallest, next))
      invariant todo == Encode(BlockPuts(rs[..i], smallest, next), []) && all == done + todo
      invariant Wrote(a, off0, b.buf[..], b.off, done)
    {
      var block := rs[i - 1];
      BlockSplit(rs[..i], smallest, next);
      assert rs[..i][..i - 1] == rs[..i - 1];
      var one := Put(V(smallest - block.end - 1), Put(V(block.end - 1 - block.start), End));
      ghost var m, j := b.buf[..], b.off;
      todo := Encode(BlockPuts(rs[..i - 1], block.start, next), []);
      r := PutAll(b, one);
      if r.Err? {
        StoppedAfter(a, off0, m, j, b.buf[..], b.off, done, Encode(one, []), todo);
        return;
      }
      FullyPrinted(m, j, b.buf[..], b.off, Encode(one, []));
      WroteTwice(a, off0, m, j, b.buf[..], b.off, done, Encode(one, []));
      Regroup(done, Encode(one, []), todo);
      done := done + Encode(one, []);
      smallest := block.start;
      i := i - 1;
    }
    NoBlocks(rs[..0], smallest, next);
    ghost var m, j := b.buf[..], b.off;
    r := PutAll(b, next);
    PrintedThen(a, off0, m, j, b.buf[..], b.off, done, todo, r.Ok?);
  }

  lemma Regroup(a: seq<byte>, b: seq<byte>, c: seq<byte>)
    ensures a + (b + c) == (a + b) + c
  {
  }

  lemma NoBlocks(rs: seq<Range>, smallest: nat, next: Puts)
    requires rs == []
    ensures BlockPuts(rs, smallest, next) == next
  {
  }

  lemma NothingBefore(a: seq<byte>, i: nat)
    requires i <= |a|
    ensures Wrote(a, i, a, i, [])
  {
    assert a == a[..i] + [] + a[i..];
  }

  /** A printing that succeeded wrote all of its bytes. */
  lemma FullyPrinted(a: seq<byte>, i: nat, b: seq<byte>, j: nat, bytes: seq<byte>)
    requires Printed(a, i, b, j, bytes, true)
    ensures Wrote(a, i, b, j, bytes)
  {
    assert bytes[..j - i] == bytes;
  }

  /** The padding loop. */
  method PutPadding(b: OctetsMut, len: nat) returns (r: Result<()>)
    requires b.Valid()
    modifies b, b.buf
    ensures b.Valid() && (r.Ok? || r == Err(BufferTooShort))
    ensures Printed(old(b.buf[..]), old(b.off), b.buf[..], b.off, Encode(PadPuts(len), []), r.Ok?)
  {
    hide Encode, Wrote, Printed, FieldBytes;
    ghost var a, off0 := b.buf[..], b.off;
    NothingBefore(a, off0);
    ghost var done: seq<byte>, todo := [], Encode(PadPuts(len), []);
    ghost var all := todo;
    assert all == done + todo;
    var left := len;
    r := Ok(());
    while left > 0
      invariant b.Valid() && left >= 0 && r.Ok?
      invariant todo == Encode(PadPuts(left), []) && all == done + todo
      invariant Wrote(a, off0, b.buf[..], b.off, done)
    {
      var one := Put(V(0x00), End);
      PadSplit(left);
      ghost var m, j := b.buf[..], b.off;
      todo := Encode(PadPuts(left - 1), []);
      r := PutAll(b, one);
      if r.Err? {
        StoppedAfter(a, off0, m, j, b.buf[..], b.off, done, Encode(one, []), todo);
        return;
      }
      FullyPrinted(m, j, b.buf[..], b.off, Encode(one, []));
      WroteTwice(a, off0, m, j, b.buf[..], b.off, done, Encode(one, []));
      assert done + (Encode(one, []) + todo) == (done + Encode(one, [])) + todo;
      done := done + Encode(one, []);
      left := left - 1;
    }
    PadNone();
    assert all == done;
    WroteIsPrinted(a, off0, b.buf[..], b.off, all);
  }

  lemma PadSplit(n: nat)
    requires n > 0
    ensures Encode(PadPuts(n), []) == Encode(Put(V(0x00), End), []) + Encode(PadPuts(n - 1), [])
    ensures Puttable(Put(V(0x00), End))
  {
    hide Encode;
    Unroll();
    EncodeThen(Put(V(0x00), End), Encode(PadPuts(n - 1), []));
    PuttableRolls();
  }

  lemma PadNone()
    ensures Encode(PadPuts(0), []) == []
  {
  }

  lemma WroteIsPrinted(a: seq<byte>, i: nat, b: seq<byte>, j: nat, bytes: seq<byte>)
    requires Wrote(a, i, b, j, bytes)
    ensures Printed(a, i, b, j, bytes, true)
  {
    assert bytes[..j - i] == bytes;
  }

  /** The nested list of MC_CONGESTION_INFO, entry by entry. */
  method PutCwnds(b: OctetsMut, cs: seq<(seq<byte>, nat)>) returns (r: Result<()>)
    requires b.Valid()
    modifies b, b.buf
    ensures b.Valid() && (r.Ok? || r == Err(BufferTooShort))
    ensures Printed(old(b.buf[..]), old(b.off), b.buf[..], b.off, Encode(CwndPuts(cs), []), r.Ok?)
  {
    hide Encode, Wrote, Printed, FieldBytes, CwndPuts;
    ghost var a, off0 := b.buf[..], b.off;
    NothingBefore(a, off0);
    ghost var done: seq<byte>, todo := [], Encode(CwndPuts(cs), []);
    ghost var all := todo;
    assert all == done + todo && cs[0..] == cs;
    r := Ok(());
    for i := 0 to |cs|
      invariant b.Valid() && r.Ok?
      invariant todo == Encode(CwndPuts(cs[i..]), []) && all == done + todo
      invariant Wrote(a, off0, b.buf[..], b.off, done)
    {
      var one := Put(U(|cs[i].0|, 1), Put(B(cs[i].0), Put(U(cs[i].1, 4), End)));
      CwndSplit(cs[i..]);
      assert cs[i..][1..] == cs[i + 1..];
      ghost var m, j := b.buf[..], b.off;
      todo := Encode(CwndPuts(cs[i + 1..]), []);
      r := PutAll(b, one);
      if r.Err? {
        StoppedAfter(a, off0, m, j, b.buf[..], b.off, done, Encode(one, []), todo);
        return;
      }
      FullyPrinted(m, j, b.buf[..], b.off, Encode(one, []));
      WroteTwice(a, off0, m, j, b.buf[..], b.off, done, Encode(one, []));
      assert done + (Encode(one, []) + todo) == (done + Encode(one, [])) + todo;
      done := done + Encode(one, []);
    }
    CwndNone();
    assert cs[|cs|..] == [] && all == done;
    WroteIsPrinted(a, off0, b.buf[..], b.off, all);
  }

  lemma CwndSplit(cs: seq<(seq<byte>, nat)>)
    requires cs != []
    ensures var one := Put(U(|cs[0].0|, 1), Put(B(cs[0].0), Put(U(cs[0].1, 4), End)));
            Puttable(one) && Encode(CwndPuts(cs), []) == Encode(one, []) + Encode(CwndPuts(cs[1..]), [])
  {
    hide Encode;
    Unroll();
    EncodeThen(Put(U(|cs[0].0|, 1), Put(B(cs[0].0), Put(U(cs[0].1, 4), End))), Encode(CwndPuts(cs[1..]), []));
    PuttableRolls();
  }

  lemma CwndNone()
    ensures Encode(CwndPuts([]), []) == []
  {
  }

  /** The fields in front of the loop of a frame that has one. */
  function LoopHead(f: Frame): Puts
    requires f.Padding? || f.Ack? || f.PathAck? || f.FcCongestionInfo?
  {
    match f
    case Padding(_) => End
    case Ack(_, _, ecn) => Put(V(if ecn.None? then 0x02 else 0x03), End)
    case PathAck(path, _, _, ecn) => Put(V(if ecn.None? then 0x15228c00 else 0x15228c01), Put(V(path), End))
    case FcCongestionInfo(info) =>
      Put(V(MC_CONGESTION_INFO_CODE), Put(U(info.cwnd, 4), Put(V(info.rtt), Put(U(|info.mcCwnds|, 1), End))))
  }

  /** What the loop and the code behind it print. */
  function LoopTail(f: Frame): Puts
    requires Printable(f) && (f.Padding? || f.Ack? || f.PathAck? || f.FcCongestionInfo?)
  {
    match f
    case Padding(len) => PadPuts(len)
    case Ack(delay, rs, ecn) => AckPuts(delay, rs, ecn)
    case PathAck(_, delay, rs, ecn) => AckPuts(delay, rs, ecn)
    case FcCongestionInfo(info) => CwndPuts(info.mcCwnds)
  }

  lemma LoopSplit(f: Frame)
    requires Printable(f) && (f.Padding? || f.Ack? || f.PathAck? || f.FcCongestionInfo?)
    ensures Encode(FramePuts(f), []) == Encode(LoopHead(f), []) + Encode(LoopTail(f), [])
  {
    hide Encode, AckPuts, CwndPuts, PadPuts, Puttable, Prepend, FieldBytes, Size;
    Unroll();
    EncodeThen(LoopHead(f), Encode(LoopTail(f), []));
  }

  lemma LoopPuttable(f: Frame)
    requires Printable(f) && (f.Padding? || f.Ack? || f.PathAck? || f.FcCongestionInfo?)
    ensures Puttable(FramePuts(f)) ==> Puttable(LoopHead(f)) && Puttable(LoopTail(f))
  {
    hide Encode, AckPuts, CwndPuts, PadPuts, Puttable;
    PuttableUnrolls();
    PuttableRolls();
  }

  /** Prints the loop part of a frame that has one. */
  method PutLoop(b: OctetsMut, f: Frame) returns (r: Result<()>)
    requires b.Valid() && Printable(f) && (f.Padding? || f.Ack? || f.PathAck? || f.FcCongestionInfo?)
    requires Puttable(LoopTail(f))
    modifies b, b.buf
    ensures b.Valid() && (r.Ok? || r == Err(BufferTooShort))
    ensures Printed(old(b.buf[..]), old(b.off), b.buf[..], b.off, Encode(LoopTail(f), []), r.Ok?)
  {
    hide Encode, Puttable, Printed, AckPuts, CwndPuts, PadPuts;
    match f {
      case Padding(len) => r := PutPadding(b, len);
      case Ack(delay, rs, ecn) => r := CommonAckToBytes(b, delay, rs, ecn);
      case PathAck(_, delay, rs, ecn) => r := CommonAckToBytes(b, delay, rs, ecn);
      case FcCongestionInfo(info) => r := PutCwnds(b, info.mcCwnds);
    }
  }

  lemma PrintedLength(f: Frame)
    requires Printable(f)
    ensures FixedFields(f) && IsPrinted(f) ==> |FrameBytes(f)| == WireLen(f) + Forgotten(f)
  {
    hide WireLen, Size, Encode, FramePuts, Forgotten;
    if FixedFields(f) && IsPrinted(f) {
      SizeIsWireLen(f);
      EncodeAppends(FramePuts(f), []);
    }
  }

  /** Is the frame one of those `to_bytes` prints at all? */
  predicate IsPrinted(f: Frame) {
    !f.CryptoHeader? && !f.StreamHeader? && !f.DatagramHeader?
  }

  /**
   `to_bytes`: succeeds exactly when the encoding fits, which is when the capacity reaches the predicted
   length (plus a forgotten bitrate); returns that length, and writes nothing beyond it.
   */
  method ToBytes(f: Frame, b: OctetsMut) returns (r: Result<nat>)
    requires b.Valid() && Serialisable(f)
    modifies b, b.buf
    ensures b.Valid() && (r.Ok? || r == Err(BufferTooShort))
    ensures Printed(old(b.buf[..]), old(b.off), b.buf[..], b.off, FrameBytes(f), r.Ok?)
    ensures r.Ok? ==> r.value == |FrameBytes(f)| == b.off - old(b.off)
    ensures FixedFields(f) && IsPrinted(f) ==>
              (r.Ok? <==> old(b.Cap()) >= WireLen(f) + Forgotten(f)) &&
              (r.Ok? ==> r.value == WireLen(f) + Forgotten(f))
  {
    hide Encode, Puttable, FramePuts, LoopHead, LoopTail, WireLen, Forgotten, FixedFields;
    var before := b.off;
    ghost var a := b.buf[..];
    PrintedLength(f);
    var put: Result<()>;
    if f.Padding? || f.Ack? || f.PathAck? || f.FcCongestionInfo? {
      LoopSplit(f);
      LoopPuttable(f);
      put := PutAll(b, LoopHead(f));
      if put.Err? {
        NothingBefore(a, before);
        StoppedAfter(a, before, a, before, b.buf[..], b.off, [], Encode(LoopHead(f), []), Encode(LoopTail(f), []));
        assert [] + FrameBytes(f) == FrameBytes(f);
        return Err(put.error);
      }
      ghost var m, j := b.buf[..], b.off;
      FullyPrinted(a, before, m, j, Encode(LoopHead(f), []));
      put := PutLoop(b, f);
      PrintedThen(a, before, m, j, b.buf[..], b.off, Encode(LoopHead(f), []), Encode(LoopTail(f), []), put.Ok?);
    } else {
      put := PutAll(b, FramePuts(f));
    }
    return if put.Err? then Err(put.error) else Ok(b.off - before);
  }

  /** The accumulating loop of the acknowledgement predictor. */
  method CommonAckWireLen(delay: nat, rs: seq<Range>, ecn: Option<EcnCounts>) returns (len: nat)
    requires Canonical(rs) && rs != []
    ensures len == AckLen(delay, rs, ecn) == Size(AckPuts(delay, rs, ecn))
  {
    hide L, Size, AckPuts;
    AckSize(delay, rs, ecn);
    var n := |rs| - 1;
    var first := rs[n];
    len := L(first.end - 1) + L(delay) + L(n) + L(first.end - 1 - first.start);
    ghost var head := len;
    var smallest: nat := first.start;
    var i := n;
    while i > 0
      invariant 0 <= i <= n
      invariant i > 0 ==> rs[i - 1].end < smallest
      invariant len + BlockLen(rs[..i], smallest) == head + BlockLen(rs[..n], first.start)
    {
      var block := rs[i - 1];
      assert rs[..i][..i - 1] == rs[..i - 1];
      len := len + L(smallest - block.end - 1) + L(block.end - 1 - block.start);
      smallest := block.start;
      i := i - 1;
    }
    if ecn.Some? {
      len := len + L(ecn.value.ect0) + L(ecn.value.ect1) + L(ecn.value.ce);
    }
  }

  // -------------------------------------------------------------------------
  // Parsing
  // -------------------------------------------------------------------------

  /**
   `parse_common_ack_frame`: collects the ranges in a fresh `RangeSet`. Slices are shorter than 2^63
   bytes, so the set never reaches its default capacity.
   */
  method ParseCommonAckFrame(b: Octets, hasEcn: bool) returns (r: Result<AckBody>)
    requires b.Valid() && |b.buf| < 0x8000_0000_0000_0000
    modifies b
    ensures b.Valid() && ReadAs(ParseAckBody(old(b.Rest()), hasEcn), r, b.Rest())
  {
    hide TakeVarint, ParseBlocks, ParseEcn, InsertRange;
    ghost var s := b.Rest();
    var largest :- b.GetVarint();
    DecodedIsShort(s);
    var delay :- b.GetVarint();
    var count :- b.GetVarint();
    var block :- b.GetVarint();
    if largest < block {
      return Err(InvalidFrame);
    }
    InsertFirst(largest - block, largest + 1);
    var ranges :- ParseBlockLoop(b, count, largest, block);
    var ecn :- ParseEcnCounts(b, hasEcn);
    return Ok(AckBody(delay, ranges, ecn));
  }

  method ParseEcnCounts(b: Octets, hasEcn: bool) returns (r: Result<Option<EcnCounts>>)
    requires b.Valid()
    modifies b
    ensures b.Valid() && ReadAs(ParseEcn(old(b.Rest()), hasEcn), r, b.Rest())
  {
    hide TakeVarint;
    if !hasEcn {
      return Ok(None);
    }
    var ect0 :- b.GetVarint();
    var ect1 :- b.GetVarint();
    var ce :- b.GetVarint();
    return Ok(Some(EcnCounts(ect0, ect1, ce)));
  }

  /** One turn of the block loop: the next range is read and put below the others. */
  method ReadNextRange(b: Octets, ranges: RangeSet, smallest: nat) returns (r: Result<nat>)
    requires b.Valid() && ranges.Valid() && 4 <= ranges.Capacity() && |ranges.View()| < ranges.Capacity()
    requires Canonical(ranges.View()) && ranges.View() != [] && ranges.View()[0].start == smallest <= MAX_VARINT + 1
    modifies b, ranges, ranges.Object()
    ensures b.Valid()
    ensures match TakeBlock(old(b.Rest()), smallest)
            case Failed(e) => r == Err(e)
            case Got(block, rest) =>
              && r == Ok(block.start) && b.Rest() == rest && |rest| + 2 <= |old(b.Rest())|
              && block.start <= smallest
              && ranges.View() == [block] + old(ranges.View()) == InsertRange(old(ranges.View()), block.start, block.end)
              && Canonical(ranges.View()) && ranges.Valid() && ranges.Capacity() == old(ranges.Capacity())
              && (ranges.Object() == old(ranges.Object()) || fresh(ranges.Object()))
  {
    hide TakeBlock, InsertRange, Listing, MapCanonical, Canonical;
    ghost var here, acc := b.Rest(), ranges.View();
    var block :- ReadBlock(b, smallest);
    TakeBlockBounds(here, smallest);
    FirstNonEmpty(acc);
    InsertInFront(acc, block.start, block.end);
    AddBelow(ranges, block.start, block.end);
    return Ok(block.start);
  }

  lemma CanonicalOne(s: nat, e: nat)
    requires s < e
    ensures Canonical([Range(s, e)]) && Canonical([])
  {
  }

  lemma FirstNonEmpty(rs: seq<Range>)
    requires Canonical(rs) && rs != []
    ensures rs[0].start < rs[0].end
  {
  }

  method ParseBlockLoop(b: Octets, count: nat, largest: nat, block: nat) returns (r: Result<seq<Range>>)
    requires b.Valid() && |b.buf| < 0x8000_0000_0000_0000 && block <= largest <= MAX_VARINT
    modifies b
    ensures b.Valid()
    ensures ReadAs(ParseBlocks(old(b.Rest()), count, largest - block, [Range(largest - block, largest + 1)]), r, b.Rest())
  {
    hide TakeBlock, ParseBlocks, InsertRange, Listing, MapCanonical, Canonical;
    var smallest: nat := largest - block;
    var ranges := new RangeSet(USIZE_MAX);
    CanonicalOne(smallest, largest + 1);
    AddBelow(ranges, smallest, largest + 1);
    ghost var s0 := b.Rest();
    ghost var first := [Range(smallest, largest + 1)];
    assert ranges.View() == first;
    var i := 0;
    while i < count
      invariant 0 <= i <= count && b.Valid() && fresh(ranges) && fresh(ranges.Object())
      invariant ranges.Valid() && ranges.Capacity() == USIZE_MAX
      invariant ranges.View() != [] && ranges.View()[0].start == smallest <= MAX_VARINT + 1
      invariant |ranges.View()| == i + 1 && 2 * i + |b.Rest()| <= |s0| && Canonical(ranges.View())
      invariant ParseBlocks(s0, count, first[0].start, first) == ParseBlocks(b.Rest(), count - i, smallest, ranges.View())
    {
      BlockTurn(b.Rest(), count - i, smallest, ranges.View());
      smallest :- ReadNextRange(b, ranges, smallest);
      i := i + 1;
    }
    NoBlocksLeft(b.Rest(), smallest, ranges.View());
    var rs := ranges.Iter();
    return Ok(rs);
  }

  /** Inserts a range below all others into a set with room left: it becomes the first. */
  method AddBelow(ranges: RangeSet, s: nat, e: nat)
    requires ranges.Valid() && s < e <= U64_MAX && |ranges.View()| < ranges.Capacity() && 4 <= ranges.Capacity()
    requires Canonical(ranges.View()) && (ranges.View() != [] ==> e < ranges.View()[0].start)
    modifies ranges, ranges.Object()
    ensures ranges.Valid() && ranges.Capacity() == old(ranges.Capacity())
    ensures ranges.View() == [Range(s, e)] + old(ranges.View())
    ensures ranges.Object() == old(ranges.Object()) || fresh(ranges.Object())
  {
    InsertInFront(ranges.View(), s, e);
    ranges.Insert(s, e);
  }

  /** One gap and one block length: the next range below `smallest`. */
  function TakeBlock(s: seq<byte>, smallest: nat): (p: Parsed<Range>)
  {
    var (gap, s) :- TakeVarint(s);
    if smallest < 2 + gap then Failed(InvalidFrame)
    else
      var largest: nat := smallest - gap - 2;
      var (block, s) :- TakeVarint(s);
      if largest < block then Failed(InvalidFrame) else Got(Range(largest - block, largest + 1), s)
  }

  /** One unfolding of the block loop. */
  lemma BlockTurn(s: seq<byte>, count: nat, smallest: nat, acc: seq<Range>)
    requires count > 0
    ensures ParseBlocks(s, count, smallest, acc) ==
            (match TakeBlock(s, smallest)
             case Failed(e) => Failed(e)
             case Got(r, rest) => ParseBlocks(rest, count - 1, r.start, InsertRange(acc, r.start, r.end)))
  {
    hide TakeVarint, InsertRange;
  }

  lemma TakeBlockBounds(s: seq<byte>, smallest: nat)
    requires TakeBlock(s, smallest).Got?
    ensures var p := TakeBlock(s, smallest);
            p.value.start < p.value.end < smallest && |p.rest| + 2 <= |s|
  {
    hide TakeVarint;
    ConsumesOne(s);
    ConsumesOne(TakeVarint(s).rest);
  }

  method ReadBlock(b: Octets, smallest: nat) returns (r: Result<Range>)
    requires b.Valid()
    modifies b
    ensures b.Valid()
    ensures ReadAs(TakeBlock(old(b.Rest()), smallest), r, b.Rest())
  {
    hide TakeVarint;
    var gap :- b.GetVarint();
    if smallest < 2 + gap {
      return Err(InvalidFrame);
    }
    var largest: nat := smallest - gap - 2;
    var size :- b.GetVarint();
    if largest < size {
      return Err(InvalidFrame);
    }
    return Ok(Range(largest - size, largest + 1));
  }

  lemma NoBlocksLeft(s: seq<byte>, smallest: nat, acc: seq<Range>)
    ensures ParseBlocks(s, 0, smallest, acc) == Got(acc, s)
  {
  }

  /** The loop that swallows padding. */
  method SkipZeros(b: Octets) returns (n: nat)
    requires b.Valid()
    modifies b
    ensures b.Valid() && n == Zeros(old(b.Rest())) && b.Rest() == old(b.Rest())[n..]
  {
    n := 0;
    ghost var s := b.Rest();
    while b.off < |b.buf| && b.buf[b.off] == 0
      invariant b.Valid() && n <= |s| && b.Rest() == s[n..] && Zeros(s) == n + Zeros(b.Rest())
      decreases |b.buf| - b.off
    {
      assert b.Rest()[0] == 0;
      assert s[n..][1..] == s[n + 1..];
      var skipped := b.GetBytes(1);
      n := n + 1;
    }
  }

  /** The loop over the nested list of MC_CONGESTION_INFO. */
  method ParseCwndLoop(b: Octets, count: nat) returns (r: Result<seq<(seq<byte>, nat)>>)
    requires b.Valid()
    modifies b
    ensures b.Valid() && ReadAs(ParseCwnds(old(b.Rest()), count), r, b.Rest())
  {
    hide TakeUint, TakeBytes, ParseCwnds;
    ghost var s := b.Rest();
    var cs: seq<(seq<byte>, nat)> := [];
    var i := 0;
    CwndsFrom(s, count, cs, s, count);
    while i < count
      invariant 0 <= i <= count && b.Valid()
      invariant ParseCwnds(s, count) == Prefixed(cs, ParseCwnds(b.Rest(), count - i))
    {
      CwndTurn(b.Rest(), count - i);
      var len :- b.GetUint(1);
      var channel :- b.GetBytes(len);
      var cwnd :- b.GetUint(4);
      ghost var more := ParseCwnds(b.Rest(), count - i - 1);
      assert more.Got? ==> cs + ([(channel, cwnd)] + more.value) == (cs + [(channel, cwnd)]) + more.value;
      cs := cs + [(channel, cwnd)];
      i := i + 1;
    }
    CwndsEnd(b.Rest());
    assert cs + [] == cs;
    return Ok(cs);
  }

  /** A parsed list with `cs` in front. */
  ghost function Prefixed(cs: seq<(seq<byte>, nat)>, p: Parsed<seq<(seq<byte>, nat)>>): Parsed<seq<(seq<byte>, nat)>> {
    match p case Got(more, rest) => Got(cs + more, rest) case Failed(e) => Failed(e)
  }

  lemma CwndsFrom(s: seq<byte>, count: nat, cs: seq<(seq<byte>, nat)>, t: seq<byte>, left: nat)
    requires cs == [] && t == s && left == count
    ensures ParseCwnds(s, count) == Prefixed(cs, ParseCwnds(t, left))
  {
    hide ParseCwnds;
    var p := ParseCwnds(s, count);
    assert p.Got? ==> [] + p.value == p.value;
  }

  lemma CwndTurn(s: seq<byte>, count: nat)
    requires count > 0
    ensures ParseCwnds(s, count) ==
            (match TakeUint(s, 1)
             case Failed(e) => Failed(e)
             case Got(len, s1) =>
               match TakeBytes(s1, len)
               case Failed(e) => Failed(e)
               case Got(channel, s2) =>
                 match TakeUint(s2, 4)
                 case Failed(e) => Failed(e)
                 case Got(cwnd, s3) => Prefixed([(channel, cwnd)], ParseCwnds(s3, count - 1)))
  {
    hide TakeUint, TakeBytes;
  }

  lemma CwndsEnd(s: seq<byte>)
    ensures ParseCwnds(s, 0) == Got([], s)
  {
  }

  /** What the payloads with a loop parse to. */
  lemma LoopBodies(ty: nat, s: seq<byte>)
    ensures ty == 0x00 ==> ParseBody(ty, s) == Got(Padding(1 + Zeros(s)), s[Zeros(s)..])
    ensures ty == 0x02 || ty == 0x03 ==>
              ParseBody(ty, s) == match ParseAckBody(s, ty == 0x03)
                                  case Failed(e) => Failed(e)
                                  case Got(a, rest) => Got(Ack(a.delay, a.ranges, a.ecn), rest)
    ensures ty == 0x15228c00 || ty == 0x15228c01 ==>
              ParseBody(ty, s) == match TakeVarint(s)
                                  case Failed(e) => Failed(e)
                                  case Got(path, s1) =>
                                    match ParseAckBody(s1, ty == 0x15228c01)
                                    case Failed(e) => Failed(e)
                                    case Got(a, rest) => Got(PathAck(path, a.delay, a.ranges, a.ecn), rest)
    ensures ty == MC_CONGESTION_INFO_CODE ==> ParseBody(ty, s) == ParseCongestion(s)
  {
    hide TakeVarint, TakeUint, TakeBytes, TakeVarintBytes, ParseAckBody, Zeros, ParseStream, ParseCid, ParseDatagram,
         ParseAnnounce, ParseState, ParseKey, ParseCongestion;
    UnknownIsExtension(if ty < 0x32 then 0x32 else ty, s);
  }

  /** The payload of a frame: loops for padding, acknowledgements and the congestion list. */
  method ParsePayloadOf(b: Octets, ty: nat) returns (r: Result<Frame>)
    requires b.Valid() && |b.buf| < 0x8000_0000_0000_0000
    modifies b
    ensures b.Valid() && ReadAs(ParseBody(ty, old(b.Rest())), r, b.Rest())
  {
    hide TakeVarint, TakeUint, TakeBytes, ParseAckBody, ParseCwnds, Zeros, ParseBody, ParseExtension;
    LoopBodies(ty, b.Rest());
    if ty == 0x00 {
      var n := SkipZeros(b);
      return Ok(Padding(1 + n));
    } else if ty == 0x02 || ty == 0x03 {
      var a :- ParseCommonAckFrame(b, ty == 0x03);
      return Ok(Ack(a.delay, a.ranges, a.ecn));
    } else if ty == 0x15228c00 || ty == 0x15228c01 {
      var path :- b.GetVarint();
      var a :- ParseCommonAckFrame(b, ty == 0x15228c01);
      return Ok(PathAck(path, a.delay, a.ranges, a.ecn));
    } else if ty == MC_CONGESTION_INFO_CODE {
      var cwnd :- b.GetUint(4);
      var rtt :- b.GetVarint();
      var count :- b.GetUint(1);
      var mc :- ParseCwndLoop(b, count);
      return Ok(FcCongestionInfo(CongestionInfo(cwnd, mc, rtt)));
    } else {
      r := ReadBody(b, ty);
    }
  }

  /** `from_bytes`: reads one frame and checks that the packet type may carry it. */
  method FromBytes(b: Octets, pkt: PacketType) returns (r: Result<Frame>)
    requires b.Valid() && |b.buf| < 0x8000_0000_0000_0000
    modifies b
    ensures b.Valid() && ReadAs(ParseFrame(old(b.Rest()), pkt), r, b.Rest())
  {
    hide TakeVarint, ParseBody, Allowed;
    var ty :- b.GetVarint();
    var f :- ParsePayloadOf(b, ty);
    if !Allowed(pkt, f) {
      return Err(InvalidPacket);
    }
    return Ok(f);
  }

  /** A buffer a frame was printed to the front of parses to that frame. */
  lemma PrintedParses(f: Frame, before: seq<byte>, after: seq<byte>, off: nat, pkt: PacketType)
    requires InRange(f) && !f.Padding? && Printable(f) && Printed(before, 0, after, off, FrameBytes(f), true)
    ensures off <= |after| && ParseFrame(after, pkt) == if Allowed(pkt, f) then Got(OnWire(f), after[off..]) else Failed(InvalidPacket)
  {
    hide Encode, ParseFrame, FramePuts, Allowed, OnWire, InRange;
    var bytes := FrameBytes(f);
    FullyPrinted(before, 0, after, off, bytes);
    EncodeAppends(FramePuts(f), after[off..]);
    assert after == bytes + after[off..];
    FrameRoundTrip(f, after[off..], pkt);
  }

  /** Printing a frame into a buffer and parsing it back from there, over the two cursors. */
  method PrintThenParse(f: Frame, buf: array<byte>, pkt: PacketType) returns (r: Result<Frame>)
    requires InRange(f) && !f.Padding? && buf.Length < 0x8000_0000_0000_0000
    modifies buf
    ensures Printable(f)
    ensures |FrameBytes(f)| <= buf.Length ==> r == if Allowed(pkt, f) then Ok(OnWire(f)) else Err(InvalidPacket)
    ensures |FrameBytes(f)| > buf.Length ==> r == Err(BufferTooShort)
  {
    hide Encode, ParseFrame, InRange, FramePuts, Puttable, WireLen, Forgotten, FixedFields, Allowed, OnWire, IsPrinted,
         FrameBytes;
    InRangeSerialisable(f);
    var w := new OctetsMut(buf);
    var printed := ToBytes(f, w);
    if printed.Err? {
      return Err(printed.error);
    }
    PrintedParses(f, old(buf[..]), buf[..], w.off, pkt);
    var b := new Octets(buf[..]);
    r := FromBytes(b, pkt);
  }
}
