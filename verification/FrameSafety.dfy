/**
 The parser on arbitrary bytes: it only moves forward, and the acknowledgement part of it never
 underflows and returns exactly the announced ranges (quiche/src/frame.rs).
 */
module FrameSafety {
  import opened Common
  import opened Varints
  import opened RangeSpec
  import opened FrameSpec

  /** `t` is what remains of `s` after reading some of it. */
  ghost predicate Suffix(t: seq<byte>, s: seq<byte>) {
    |t| <= |s| && s[|s| - |t|..] == t
  }

  lemma SuffixTrans(a: seq<byte>, b: seq<byte>, c: seq<byte>)
    requires Suffix(a, b) && Suffix(b, c)
    ensures Suffix(a, c)
  {
    assert c[|c| - |a|..] == c[|c| - |b|..][|b| - |a|..];
  }

  /** A reader only consumes from the front. */
  ghost predicate Advances<T>(r: Parsed<T>, s: seq<byte>) {
    r.Got? ==> Suffix(r.rest, s)
  }

  /** Every primitive reader only moves forward, and so does any sequence of them. */
  lemma Forward()
    ensures forall s {:trigger TakeVarint(s)} :: Advances(TakeVarint(s), s)
    ensures forall s, n: nat {:trigger TakeBytes(s, n)} :: Advances(TakeBytes(s, n), s)
    ensures forall s, n: nat {:trigger TakeUint(s, n)} :: Advances(TakeUint(s, n), s)
    ensures forall s {:trigger Suffix(s, s)} :: Suffix(s, s)
    ensures forall a, b, c {:trigger Suffix(a, b), Suffix(b, c)} :: Suffix(a, b) && Suffix(b, c) ==> Suffix(a, c)
  {
    forall a, b, c | Suffix(a, b) && Suffix(b, c) ensures Suffix(a, c) {
      SuffixTrans(a, b, c);
    }
  }

  lemma StringsForward(s: seq<byte>)
    ensures Advances(TakeU8Bytes(s), s) && Advances(TakeVarintBytes(s), s)
  {
    hide TakeVarint, TakeUint, TakeBytes, Suffix;
    Forward();
  }

  lemma StreamForward(ty: nat, s: seq<byte>)
    ensures Advances(ParseStream(ty, s), s) && Advances(ParseDatagram(ty, s), s)
  {
    hide TakeVarint, TakeBytes, Suffix;
    Forward();
    assert Suffix(s, s);
  }

  lemma CidForward(s: seq<byte>)
    ensures Advances(ParseCid(s), s)
  {
    hide TakeVarint, TakeUint, TakeBytes, Suffix;
    Forward();
  }

  lemma {:induction false} BlocksForward(s: seq<byte>, count: nat, smallest: nat, acc: seq<Range>)
    ensures Advances(ParseBlocks(s, count, smallest, acc), s)
    decreases count
  {
    hide TakeVarint, Suffix, InsertRange;
    Forward();
    assert Suffix(s, s);
    if count > 0 {
      var g := TakeVarint(s);
      if g.Got? && smallest >= 2 + g.value {
        var b := TakeVarint(g.rest);
        if b.Got? && smallest - g.value - 2 >= b.value {
          var low: nat := smallest - g.value - 2 - b.value;
          BlocksForward(b.rest, count - 1, low, InsertRange(acc, low, smallest - g.value - 1));
        }
      }
    }
  }

  lemma EcnForward(s: seq<byte>, hasEcn: bool)
    ensures Advances(ParseEcn(s, hasEcn), s)
  {
    hide TakeVarint, Suffix;
    Forward();
    assert Suffix(s, s);
  }

  /** The four leading fields of an acknowledgement, if they are there. */
  lemma AckForward(s: seq<byte>, hasEcn: bool)
    ensures Advances(ParseAckBody(s, hasEcn), s)
  {
    hide TakeVarint, Suffix, InsertRange, ParseBlocks, ParseEcn;
    Forward();
    forall t, count: nat, smallest: nat, acc ensures Advances(ParseBlocks(t, count, smallest, acc), t) {
      BlocksForward(t, count, smallest, acc);
    }
    forall t ensures Advances(ParseEcn(t, hasEcn), t) {
      EcnForward(t, hasEcn);
    }
  }

  lemma {:induction false} CwndsForward(s: seq<byte>, count: nat)
    ensures Advances(ParseCwnds(s, count), s)
    decreases count
  {
    hide TakeUint, TakeU8Bytes, Suffix;
    Forward();
    assert Suffix(s, s);
    if count > 0 {
      StringsForward(s);
      var c := TakeU8Bytes(s);
      if c.Got? {
        var w := TakeUint(c.rest, 4);
        if w.Got? {
          CwndsForward(w.rest, count - 1);
        }
      }
    }
  }

  lemma FlexicastForward(ty: nat, s: seq<byte>)
    ensures Advances(ParseAnnounce(ty, s), s) && Advances(ParseState(s), s) && Advances(ParseKey(s), s)
  {
    hide TakeVarint, TakeUint, TakeBytes, TakeU8Bytes, TakeVarintBytes, Suffix, ParseBitrate;
    Forward();
    forall t ensures Advances(TakeU8Bytes(t), t) && Advances(TakeVarintBytes(t), t) {
      StringsForward(t);
    }
    forall t ensures Advances(ParseBitrate(ty, t), t) {
      BitrateForward(ty, t);
    }
  }

  lemma BitrateForward(ty: nat, s: seq<byte>)
    ensures Advances(ParseBitrate(ty, s), s)
  {
    hide TakeVarint, Suffix;
    Forward();
    assert Suffix(s, s);
  }

  lemma CongestionForward(s: seq<byte>)
    ensures Advances(ParseCongestion(s), s)
  {
    hide TakeVarint, TakeUint, Suffix, ParseCwnds;
    Forward();
    forall t, count: nat ensures Advances(ParseCwnds(t, count), t) {
      CwndsForward(t, count);
    }
  }

  lemma SmallForward(s: seq<byte>, one: nat -> Frame, two: (nat, nat) -> Frame, eight: seq<byte> -> Frame)
    ensures Advances(Parse1(s, one), s) && Advances(Parse2(s, two), s) && Advances(Parse8(s, eight), s)
  {
    hide TakeVarint, TakeBytes, Suffix;
    Forward();
  }

  lemma ZerosForward(s: seq<byte>)
    ensures Suffix(s[Zeros(s)..], s)
  {
  }

  lemma AllSmallForward(s: seq<byte>)
    ensures forall one: nat -> Frame {:trigger Parse1(s, one)} :: Advances(Parse1(s, one), s)
    ensures forall two: (nat, nat) -> Frame {:trigger Parse2(s, two)} :: Advances(Parse2(s, two), s)
    ensures forall eight: seq<byte> -> Frame {:trigger Parse8(s, eight)} :: Advances(Parse8(s, eight), s)
  {
    forall one: nat -> Frame ensures Advances(Parse1(s, one), s) {
      SmallForward(s, one, (a: nat, b: nat) => HandshakeDone, (d: seq<byte>) => HandshakeDone);
    }
    forall two: (nat, nat) -> Frame ensures Advances(Parse2(s, two), s) {
      SmallForward(s, (a: nat) => HandshakeDone, two, (d: seq<byte>) => HandshakeDone);
    }
    forall eight: seq<byte> -> Frame ensures Advances(Parse8(s, eight), s) {
      SmallForward(s, (a: nat) => HandshakeDone, (a: nat, b: nat) => HandshakeDone, eight);
    }
  }

  lemma ExtensionForward(ty: nat, s: seq<byte>)
    ensures Advances(ParseExtension(ty, s), s)
  {
    hide TakeVarint, Suffix, ParseAckBody, ParseCid, Parse1, Parse2, ParseAnnounce, ParseState, ParseKey, ParseCongestion;
    Forward();
    AllSmallForward(s);
    FlexicastForward(ty, s);
    CongestionForward(s);
    forall t, hasEcn ensures Advances(ParseAckBody(t, hasEcn), t) {
      AckForward(t, hasEcn);
    }
    forall t ensures Advances(ParseCid(t), t) {
      CidForward(t);
    }
  }

  lemma BodyForward(ty: nat, s: seq<byte>)
    ensures Advances(ParseBody(ty, s), s)
  {
    hide TakeVarint, TakeBytes, TakeVarintBytes, Suffix, ParseAckBody, ParseCid, Parse1, Parse2, Parse8, ParseStream,
      ParseDatagram, ParseExtension, Zeros;
    Forward();
    assert Suffix(s, s);
    AllSmallForward(s);
    ExtensionForward(ty, s);
    StreamForward(ty, s);
    ZerosForward(s);
    AckForward(s, ty == 0x03);
    CidForward(s);
    forall t ensures Advances(TakeVarintBytes(t), t) {
      StringsForward(t);
    }
  }

  /** A parsed frame consumes at least one byte and leaves a suffix of the input. */
  lemma FrameForward(s: seq<byte>, pkt: PacketType)
    requires ParseFrame(s, pkt).Got?
    ensures Suffix(ParseFrame(s, pkt).rest, s) && |ParseFrame(s, pkt).rest| < |s|
  {
    hide ParseBody;
    var t := TakeVarint(s);
    DecodedIsShort(s);
    BodyForward(t.value, t.rest);
    Forward();
  }

  // -------------------------------------------------------------------------
  // Acknowledgements from arbitrary bytes
  // -------------------------------------------------------------------------

  /** How many turns of the block loop are completed before it ends, by success or by error. */
  function CompletedBlocks(s: seq<byte>, count: nat, smallest: nat): nat
    decreases count
  {
    if count == 0 then 0
    else
      match TakeVarint(s)
      case Failed(_) => 0
      case Got(gap, s1) =>
        if smallest < 2 + gap then 0
        else
          match TakeVarint(s1)
          case Failed(_) => 0
          case Got(block, s2) =>
            if smallest - gap - 2 < block then 0
            else 1 + CompletedBlocks(s2, count - 1, smallest - gap - 2 - block)
  }

  /** Whatever block count the peer announces, the loop turns at most once per two bytes received. */
  lemma {:induction false} BlocksBoundedByBytes(s: seq<byte>, count: nat, smallest: nat)
    ensures 2 * CompletedBlocks(s, count, smallest) <= |s|
    decreases count
  {
    hide TakeVarint;
    if count > 0 {
      var g := TakeVarint(s);
      if g.Got? && smallest >= 2 + g.value {
        ConsumesOne(s);
        var b := TakeVarint(g.rest);
        if b.Got? && smallest - g.value - 2 >= b.value {
          ConsumesOne(g.rest);
          BlocksBoundedByBytes(b.rest, count - 1, smallest - g.value - 2 - b.value);
        }
      }
    }
  }

  lemma ConsumesOne(s: seq<byte>)
    ensures TakeVarint(s).Got? ==> |TakeVarint(s).rest| + 1 <= |s|
  {
  }

  /**
   The block loop succeeds only with `count` new ranges below the ones it started from, each separated
   from the next, and every announced block completed.
   */
  lemma {:induction false} BlocksExact(s: seq<byte>, count: nat, acc: seq<Range>)
    requires Canonical(acc) && acc != []
    ensures var r := ParseBlocks(s, count, acc[0].start, acc);
            r.Got? ==>
              && Canonical(r.value) && |r.value| == count + |acc|
              && r.value[count..] == acc
              && CompletedBlocks(s, count, acc[0].start) == count
    decreases count
  {
    hide TakeVarint, InsertRange;
    if count > 0 {
      var smallest := acc[0].start;
      var g := TakeVarint(s);
      if g.Got? && smallest >= 2 + g.value {
        var b := TakeVarint(g.rest);
        if b.Got? && smallest - g.value - 2 >= b.value {
          var low: nat, high: nat := smallest - g.value - 2 - b.value, smallest - g.value - 1;
          InsertInFront(acc, low, high);
          BlocksExact(b.rest, count - 1, [Range(low, high)] + acc);
          var r := ParseBlocks(b.rest, count - 1, low, [Range(low, high)] + acc);
          if r.Got? {
            assert r.value[count..] == r.value[count - 1..][1..];
          }
        }
      }
    }
  }

  /**
   On arbitrary bytes an accepted acknowledgement has exactly Block Count + 1 ranges, and the largest
   acknowledged value is the first field (section 19.3.1 of RFC 9000).
   */
  lemma AckExact(s: seq<byte>, hasEcn: bool)
    requires ParseAckBody(s, hasEcn).Got?
    ensures var rs := ParseAckBody(s, hasEcn).value.ranges;
            var largest := TakeVarint(s);
            var delay := TakeVarint(largest.rest);
            var count := TakeVarint(delay.rest);
            && largest.Got? && delay.Got? && count.Got?
            && Canonical(rs) && |rs| == count.value + 1
            && rs[|rs| - 1].end - 1 == largest.value
            && ParseAckBody(s, hasEcn).value.delay == delay.value
  {
    hide TakeVarint, InsertRange, ParseBlocks, ParseEcn;
    var largest := TakeVarint(s);
    var delay := TakeVarint(largest.rest);
    var count := TakeVarint(delay.rest);
    var block := TakeVarint(count.rest);
    var first := Range(largest.value - block.value, largest.value + 1);
    InsertFirst(first.start, first.end);
    BlocksExact(block.rest, count.value, [first]);
  }
}
