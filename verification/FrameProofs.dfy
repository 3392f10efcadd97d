/**
 The frame codec is a codec: every frame is parsed back from its own bytes before any suffix, its
 length is what the predictor says, and the acknowledgement parser is safe on arbitrary bytes.
 */
module FrameProofs {
  import opened Common
  import opened Varints
  import opened RangeSpec
  import opened FrameSpec

  // -------------------------------------------------------------------------
  // Reading what one put call wrote
  // -------------------------------------------------------------------------

  lemma ReadV(v: nat, tail: seq<byte>)
    requires v <= MAX_VARINT
    ensures TakeVarint(Prepend(V(v), tail)) == Got(v, tail)
  {
    VarintRoundTrip(v, tail);
  }

  lemma ReadV2(v: nat, tail: seq<byte>)
    ensures TakeVarint(Prepend(V2(v), tail)) == Got(v, tail) <==> v <= 16383
  {
    VarintRoundTripIff(v, 2, tail);
  }

  lemma ReadU(v: nat, n: nat, tail: seq<byte>)
    requires v < Pow256(n)
    ensures TakeUint(Prepend(U(v, n), tail), n) == Got(v, tail)
  {
    FromToBe(v, n);
    var s := Prepend(U(v, n), tail);
    assert s[..n] == ToBe(v, n) && s[n..] == tail;
  }

  /** A one-byte integer reads back as the byte itself. */
  lemma ReadByte(v: byte, tail: seq<byte>)
    ensures TakeBytes(Prepend(U(v, 1), tail), 1) == Got([v], tail)
  {
    var s := Prepend(U(v, 1), tail);
    assert ToBe(v, 1) == ToBe(v / 256, 0) + [v % 256] == [v];
    assert s[..1] == [v] && s[1..] == tail;
  }

  lemma ReadB(bytes: seq<byte>, tail: seq<byte>)
    ensures TakeBytes(Prepend(B(bytes), tail), |bytes|) == Got(bytes, tail)
  {
    var s := Prepend(B(bytes), tail);
    assert s[..|bytes|] == bytes && s[|bytes|..] == tail;
  }

  /** All of the above at once, for every value and suffix. */
  lemma ReadsBack()
    ensures forall v: nat, tail {:trigger TakeVarint(Prepend(V(v), tail))} ::
              v <= MAX_VARINT ==> TakeVarint(Prepend(V(v), tail)) == Got(v, tail)
    ensures forall v: nat, tail {:trigger TakeVarint(Prepend(V2(v), tail))} ::
              v <= 16383 ==> TakeVarint(Prepend(V2(v), tail)) == Got(v, tail)
    ensures forall v: nat, tail {:trigger TakeUint(Prepend(U(v, 1), tail), 1)} ::
              v < 256 ==> TakeUint(Prepend(U(v, 1), tail), 1) == Got(v, tail)
    ensures forall bytes, tail, n {:trigger TakeBytes(Prepend(B(bytes), tail), n)} ::
              n == |bytes| ==> TakeBytes(Prepend(B(bytes), tail), n) == Got(bytes, tail)
  {
    forall v: nat, tail | v <= MAX_VARINT ensures TakeVarint(Prepend(V(v), tail)) == Got(v, tail) {
      ReadV(v, tail);
    }
    forall v: nat, tail | v <= 16383 ensures TakeVarint(Prepend(V2(v), tail)) == Got(v, tail) {
      ReadV2(v, tail);
    }
    forall v: nat, tail | v < 256 ensures TakeUint(Prepend(U(v, 1), tail), 1) == Got(v, tail) {
      PowValues();
      ReadU(v, 1, tail);
    }
    forall bytes, tail, n | n == |bytes| ensures TakeBytes(Prepend(B(bytes), tail), n) == Got(bytes, tail) {
      ReadB(bytes, tail);
    }
  }

  lemma Unroll()
    ensures forall f, next, tail {:trigger Encode(Put(f, next), tail)} ::
              Encode(Put(f, next), tail) == Prepend(f, Encode(next, tail))
    ensures forall tail {:trigger Encode(End, tail)} :: Encode(End, tail) == tail
    ensures forall f, next {:trigger Size(Put(f, next))} :: Size(Put(f, next)) == |FieldBytes(f)| + Size(next)
    ensures Size(End) == 0
  {
  }

  // -------------------------------------------------------------------------
  // What a frame must satisfy to survive the wire
  // -------------------------------------------------------------------------

  predicate Small(v: nat) {
    v <= MAX_VARINT
  }

  ghost predicate AckInRange(delay: nat, rs: seq<Range>, ecn: Option<EcnCounts>) {
    && Canonical(rs) && rs != [] && Small(rs[|rs| - 1].end - 1) && Small(delay)
    && (ecn.Some? ==> Small(ecn.value.ect0) && Small(ecn.value.ect1) && Small(ecn.value.ce))
  }

  ghost predicate CidInRange(num: nat, floor: nat, cid: seq<byte>, token: seq<byte>) {
    Small(num) && Small(floor) && 1 <= |cid| <= MAX_CID_LEN && |token| == 16
  }

  /** Every field fits its place on the wire, and the parser's own checks accept it. */
  ghost predicate InRange(f: Frame) {
    match f
    case Padding(len) => len > 0
    case Ping(_) => true
    case Ack(delay, rs, ecn) => AckInRange(delay, rs, ecn)
    case ResetStream(id, code, size) => Small(id) && Small(code) && Small(size)
    case StopSending(id, code) => Small(id) && Small(code)
    case Crypto(c) => Small(c.off) && |c.data| <= 16383
    case CryptoHeader(_, _) => false
    case NewToken(token) => 0 < |token| <= MAX_VARINT
    case Stream(id, c) => Small(id) && |c.data| <= 16383 && c.off + |c.data| < MAX_STREAM_SIZE
    case StreamHeader(_, _, _, _) => false
    case MaxData(max) => Small(max)
    case MaxStreamData(id, max) => Small(id) && Small(max)
    case MaxStreamsBidi(max) => Small(max)
    case MaxStreamsUni(max) => Small(max)
    case DataBlocked(limit) => Small(limit)
    case StreamDataBlocked(id, limit) => Small(id) && Small(limit)
    case StreamsBlockedBidi(limit) => Small(limit)
    case StreamsBlockedUni(limit) => Small(limit)
    case NewConnectionId(num, floor, cid, token) => CidInRange(num, floor, cid, token)
    case RetireConnectionId(num) => Small(num)
    case PathChallenge(data) => |data| == 8
    case PathResponse(data) => |data| == 8
    case ConnectionClose(code, ty, reason) => Small(code) && Small(ty) && Small(|reason|)
    case ApplicationClose(code, reason) => Small(code) && Small(|reason|)
    case HandshakeDone => true
    case Datagram(data) => |data| <= 16383
    case DatagramHeader(_) => false
    case PathAck(path, delay, rs, ecn) => Small(path) && AckInRange(delay, rs, ecn)
    case PathAbandon(path, code) => Small(path) && Small(code)
    case PathBackup(path, num) => Small(path) && Small(num)
    case PathAvailable(path, num) => Small(path) && Small(num)
    case PathNewConnectionId(path, num, floor, cid, token) => Small(path) && CidInRange(num, floor, cid, token)
    case PathRetireConnectionId(path, num) => Small(path) && Small(num)
    case MaxPathId(max) => Small(max)
    case PathsBlocked(max) => Small(max)
    case McAnnounce(channel, _, _, _, source, group, port, timer, key, bitrate, qos) =>
      && |channel| <= 255 && |source| == 4 && |group| == 4 && port <= 0xFFFF && timer <= U64_MAX && Small(|key|)
      && (bitrate.Some? ==> Small(bitrate.value)) && qos <= 3
    case McState(channel, action, data) => |channel| <= 255 && Small(action) && Small(data)
    case McKey(channel, key, _, pn) => |channel| <= 255 && Small(|key|) && Small(pn)
    case FcCongestionInfo(info) =>
      && info.cwnd < 0x1_0000_0000 && Small(info.rtt) && |info.mcCwnds| <= 255
      && (forall i :: 0 <= i < |info.mcCwnds| ==> |info.mcCwnds[i].0| <= 255 && info.mcCwnds[i].1 < 0x1_0000_0000)
  }

  // -------------------------------------------------------------------------
  // Acknowledgements
  // -------------------------------------------------------------------------

  /** There cannot be more ranges than values below the end of the last one. */
  lemma {:induction false} FewRanges(rs: seq<Range>)
    requires Canonical(rs) && rs != []
    ensures |rs| <= rs[|rs| - 1].end
  {
    if |rs| > 1 {
      FewRanges(rs[..|rs| - 1]);
    }
  }

  /** One turn of the block loop. */
  lemma BlockStep(gap: nat, block: nat, tail: seq<byte>, count: nat, smallest: nat, acc: seq<Range>)
    requires gap <= MAX_VARINT && block <= MAX_VARINT && 2 + gap + block <= smallest && count > 0
    ensures ParseBlocks(Prepend(V(gap), Prepend(V(block), tail)), count, smallest, acc) ==
            ParseBlocks(tail, count - 1, smallest - gap - 2 - block,
                        InsertRange(acc, smallest - gap - 2 - block, smallest - gap - 1))
  {
    hide TakeVarint, Prepend, InsertRange;
    ReadV(gap, Prepend(V(block), tail));
    ReadV(block, tail);
  }

  lemma BlocksUnfold(rs: seq<Range>, smallest: nat, next: Puts, tail: seq<byte>)
    requires Canonical(rs) && rs != [] && rs[|rs| - 1].end < smallest
    ensures var b := rs[|rs| - 1];
            Encode(BlockPuts(rs, smallest, next), tail) ==
              Prepend(V(smallest - b.end - 1), Prepend(V(b.end - 1 - b.start),
                Encode(BlockPuts(rs[..|rs| - 1], b.start, next), tail)))
  {
    hide Prepend;
  }

  lemma BlocksNone(smallest: nat, next: Puts, tail: seq<byte>, acc: seq<Range>)
    ensures Encode(BlockPuts([], smallest, next), tail) == Encode(next, tail)
    ensures ParseBlocks(Encode(next, tail), 0, smallest, acc) == Got(acc, Encode(next, tail))
  {
  }

  lemma LastMoves(rs: seq<Range>, acc: seq<Range>)
    requires rs != []
    ensures rs[..|rs| - 1] + ([rs[|rs| - 1]] + acc) == rs + acc
  {
  }

  /** The block loop rebuilds the ranges it was printed from, in front of those already there. */
  lemma {:induction false} BlocksRoundTrip(rs: seq<Range>, acc: seq<Range>, next: Puts, tail: seq<byte>)
    requires Canonical(rs) && acc != [] && (rs != [] ==> rs[|rs| - 1].end < acc[0].start)
    requires acc[0].start < acc[0].end && acc[0].start <= MAX_VARINT + 1
    ensures ParseBlocks(Encode(BlockPuts(rs, acc[0].start, next), tail), |rs|, acc[0].start, acc)
            == Got(rs + acc, Encode(next, tail))
    decreases |rs|
  {
    hide TakeVarint, Prepend, InsertRange, Encode, ParseBlocks, BlockPuts;
    if rs == [] {
      BlocksNone(acc[0].start, next, tail, acc);
      assert rs + acc == acc;
    } else {
      var n := |rs| - 1;
      var b, smallest := rs[n], acc[0].start;
      var gap, block := smallest - b.end - 1, b.end - 1 - b.start;
      var more := Encode(BlockPuts(rs[..n], b.start, next), tail);
      BlocksUnfold(rs, smallest, next, tail);
      BlockStep(gap, block, more, |rs|, smallest, acc);
      InsertInFront(acc, b.start, b.end);
      BlocksRoundTrip(rs[..n], [b] + acc, next, tail);
      LastMoves(rs, acc);
    }
  }

  lemma EcnRoundTrip(ecn: Option<EcnCounts>, tail: seq<byte>)
    requires ecn.Some? ==> Small(ecn.value.ect0) && Small(ecn.value.ect1) && Small(ecn.value.ce)
    ensures ParseEcn(Encode(EcnPuts(ecn), tail), ecn.Some?) == Got(ecn, tail)
  {
    ReadsBack();
    Unroll();
  }

  /**
   Every non-empty set of packet numbers below 2^62, with any delay and ECN counts, is decoded from
   its encoding exactly: the gaps never underflow because stored ranges never touch.
   */
  lemma AckRoundTrip(delay: nat, rs: seq<Range>, ecn: Option<EcnCounts>, tail: seq<byte>)
    requires AckInRange(delay, rs, ecn)
    ensures ParseAckBody(Encode(AckPuts(delay, rs, ecn), tail), ecn.Some?) == Got(AckBody(delay, rs, ecn), tail)
  {
    hide TakeVarint, Prepend, InsertRange, ParseBlocks, ParseEcn, ParseAckBody, AckPuts, BlockPuts, EcnPuts, Encode;
    var n := |rs| - 1;
    var last := rs[n];
    FewRanges(rs);
    var more := Encode(BlockPuts(rs[..n], last.start, EcnPuts(ecn)), tail);
    AckUnfold(delay, rs, ecn, tail);
    AckHeadRoundTrip(last, delay, n, more, ecn.Some?);
    BlocksRoundTrip(rs[..n], [last], EcnPuts(ecn), tail);
    assert rs[..n] + [last] == rs;
    EcnRoundTrip(ecn, tail);
  }

  lemma AckUnfold(delay: nat, rs: seq<Range>, ecn: Option<EcnCounts>, tail: seq<byte>)
    requires Canonical(rs) && rs != []
    ensures var last := rs[|rs| - 1];
            Encode(AckPuts(delay, rs, ecn), tail) ==
              Prepend(V(last.end - 1), Prepend(V(delay), Prepend(V(|rs| - 1), Prepend(V(last.end - 1 - last.start),
                Encode(BlockPuts(rs[..|rs| - 1], last.start, EcnPuts(ecn)), tail)))))
  {
    hide Prepend, BlockPuts, EcnPuts;
    Unroll();
  }

  /** The four leading fields of an acknowledgement. */
  lemma AckHeadRoundTrip(last: Range, delay: nat, count: nat, more: seq<byte>, hasEcn: bool)
    requires last.start < last.end <= MAX_VARINT + 1 && delay <= MAX_VARINT && count <= MAX_VARINT
    ensures ParseAckBody(Prepend(V(last.end - 1), Prepend(V(delay), Prepend(V(count),
              Prepend(V(last.end - 1 - last.start), more)))), hasEcn)
            == (match ParseBlocks(more, count, last.start, [last])
                case Failed(e) => Failed(e)
                case Got(ranges, s) =>
                  match ParseEcn(s, hasEcn)
                  case Failed(e) => Failed(e)
                  case Got(ecn, s') => Got(AckBody(delay, ranges, ecn), s'))
  {
    hide TakeVarint, Prepend, InsertRange, ParseBlocks, ParseEcn;
    ReadsBack();
    InsertFirst(last.start, last.end);
  }

  // -------------------------------------------------------------------------
  // The other payloads
  // -------------------------------------------------------------------------

  lemma CidRoundTrip(num: nat, floor: nat, cid: seq<byte>, token: seq<byte>, tail: seq<byte>)
    requires CidInRange(num, floor, cid, token)
    ensures ParseCid(Encode(CidPuts(num, floor, cid, token), tail)) == Got(CidBody(num, floor, cid, token), tail)
  {
    hide TakeVarint, TakeUint, TakeBytes, Prepend;
    ReadsBack();
    Unroll();
  }

  lemma StreamRoundTrip(id: nat, c: Chunk, tail: seq<byte>)
    requires Small(id) && |c.data| <= 16383 && c.off + |c.data| < MAX_STREAM_SIZE
    ensures ParseStream(if c.fin then 0x0f else 0x0e,
              Prepend(V(id), Prepend(V(c.off), Prepend(V2(|c.data|), Prepend(B(c.data), tail)))))
            == Got(Stream(id, c), tail)
  {
    hide TakeVarint, TakeBytes, Prepend;
    ReadsBack();
  }

  lemma KeyRoundTrip(channel: seq<byte>, key: seq<byte>, algo: Algorithm, pn: nat, tail: seq<byte>)
    requires |channel| <= 255 && Small(|key|) && Small(pn)
    ensures ParseKey(Prepend(U(|channel|, 1), Prepend(B(channel), Prepend(V(|key|), Prepend(B(key),
              Prepend(U(AlgorithmByte(algo), 1), Prepend(V(pn), tail))))))) == Got(McKey(channel, key, algo, pn), tail)
  {
    hide TakeVarint, TakeUint, TakeBytes, Prepend;
    ReadsBack();
  }

  lemma StateRoundTrip(channel: seq<byte>, action: nat, data: nat, tail: seq<byte>)
    requires |channel| <= 255 && Small(action) && Small(data)
    ensures ParseState(Prepend(U(|channel|, 1), Prepend(B(channel), Prepend(V(action), Prepend(V(data), tail)))))
            == Got(McState(channel, action, data), tail)
  {
    hide TakeVarint, TakeUint, TakeBytes, Prepend;
    ReadsBack();
  }

  /** Wider integers, for every suffix. */
  lemma ReadsWide()
    ensures forall v: nat, tail {:trigger TakeUint(Prepend(U(v, 2), tail), 2)} ::
              v <= 0xFFFF ==> TakeUint(Prepend(U(v, 2), tail), 2) == Got(v, tail)
    ensures forall v: nat, tail {:trigger TakeUint(Prepend(U(v, 4), tail), 4)} ::
              v < 0x1_0000_0000 ==> TakeUint(Prepend(U(v, 4), tail), 4) == Got(v, tail)
    ensures forall v: nat, tail {:trigger TakeUint(Prepend(U(v, 8), tail), 8)} ::
              v <= U64_MAX ==> TakeUint(Prepend(U(v, 8), tail), 8) == Got(v, tail)
    ensures forall v: byte, tail {:trigger TakeBytes(Prepend(U(v, 1), tail), 1)} ::
              TakeBytes(Prepend(U(v, 1), tail), 1) == Got([v], tail)
  {
    hide TakeUint, TakeBytes, Prepend;
    PowValues();
    forall v: nat, tail | v <= 0xFFFF ensures TakeUint(Prepend(U(v, 2), tail), 2) == Got(v, tail) {
      ReadU(v, 2, tail);
    }
    forall v: nat, tail | v < 0x1_0000_0000 ensures TakeUint(Prepend(U(v, 4), tail), 4) == Got(v, tail) {
      ReadU(v, 4, tail);
    }
    forall v: nat, tail | v <= U64_MAX ensures TakeUint(Prepend(U(v, 8), tail), 8) == Got(v, tail) {
      ReadU(v, 8, tail);
    }
    forall v: byte, tail ensures TakeBytes(Prepend(U(v, 1), tail), 1) == Got([v], tail) {
      ReadByte(v, tail);
    }
  }

  lemma AnnounceRoundTrip(channel: seq<byte>, ipv6: byte, probe: byte, reset: byte, source: seq<byte>, group: seq<byte>,
                          port: nat, timer: nat, key: seq<byte>, bitrate: Option<nat>, qos: byte, tail: seq<byte>)
    requires InRange(McAnnounce(channel, ipv6, probe, reset, source, group, port, timer, key, bitrate, qos))
    ensures ParseAnnounce(if bitrate.Some? then MC_ANNOUNCE_BW_CODE else MC_ANNOUNCE_CODE,
              Encode(AnnouncePuts(channel, ipv6, probe, reset, source, group, port, timer, key, bitrate, qos), tail))
            == Got(McAnnounce(channel, ipv6, probe, reset, source, group, port, timer, key, bitrate, qos), tail)
  {
    hide TakeVarint, TakeUint, TakeBytes, Prepend;
    ReadsBack();
    ReadsWide();
    Unroll();
  }

  lemma {:induction false} CwndsRoundTrip(cs: seq<(seq<byte>, nat)>, tail: seq<byte>)
    requires forall i :: 0 <= i < |cs| ==> |cs[i].0| <= 255 && cs[i].1 < 0x1_0000_0000
    ensures ParseCwnds(Encode(CwndPuts(cs), tail), |cs|) == Got(cs, tail)
    decreases |cs|
  {
    hide TakeUint, TakeBytes, Prepend;
    if cs != [] {
      CwndsRoundTrip(cs[1..], tail);
      ReadsBack();
      ReadsWide();
      Unroll();
      assert [(cs[0].0, cs[0].1)] + cs[1..] == cs;
    }
  }

  lemma CongestionRoundTrip(info: CongestionInfo, tail: seq<byte>)
    requires InRange(FcCongestionInfo(info))
    ensures ParseCongestion(Prepend(U(info.cwnd, 4), Prepend(V(info.rtt), Prepend(U(|info.mcCwnds|, 1),
              Encode(CwndPuts(info.mcCwnds), tail))))) == Got(FcCongestionInfo(info), tail)
  {
    hide TakeVarint, TakeUint, TakeBytes, Prepend, ParseCwnds, Encode;
    ReadsBack();
    ReadsWide();
    CwndsRoundTrip(info.mcCwnds, tail);
  }

  // -------------------------------------------------------------------------
  // Whole frames
  // -------------------------------------------------------------------------

  /** What arrives: the MTU probe mark of a PING and the FIN mark of CRYPTO data are not on the wire. */
  function OnWire(f: Frame): Frame {
    match f
    case Ping(_) => Ping(None)
    case Crypto(c) => Crypto(c.(fin := false))
    case _ => f
  }

  /** The type field of a frame that is not padding and not header-only. */
  ghost function TypeOf(f: Frame): nat
    requires InRange(f) && !f.Padding?
  {
    FramePuts(f).field.v
  }

  ghost predicate BodyParses(f: Frame, tail: seq<byte>)
    requires InRange(f) && !f.Padding?
  {
    ParseBody(TypeOf(f), Encode(FramePuts(f).next, tail)) == Got(OnWire(f), tail)
  }

  lemma AckBodyParses(f: Frame, tail: seq<byte>)
    requires InRange(f) && (f.Ack? || f.PathAck?)
    ensures BodyParses(f, tail)
  {
    hide TakeVarint, TakeUint, TakeBytes, Prepend, ParseAckBody, AckPuts;
    ReadsBack();
    Unroll();
    AckRoundTrip(f.ackDelay, f.ranges, f.ecn, tail);
  }

  lemma CidBodyParses(f: Frame, tail: seq<byte>)
    requires InRange(f) && (f.NewConnectionId? || f.PathNewConnectionId?)
    ensures BodyParses(f, tail)
  {
    hide TakeVarint, TakeUint, TakeBytes, Prepend, ParseCid, CidPuts;
    ReadsBack();
    Unroll();
    CidRoundTrip(f.seqNum, f.retirePriorTo, f.connId, f.resetToken, tail);
  }

  lemma DataBodyParses(f: Frame, tail: seq<byte>)
    requires InRange(f) && (f.Crypto? || f.NewToken? || f.Stream? || f.Datagram?)
    ensures BodyParses(f, tail)
  {
    hide TakeVarint, TakeUint, TakeBytes, Prepend, ParseStream;
    ReadsBack();
    Unroll();
    if f.Stream? {
      StreamRoundTrip(f.streamId, f.chunk, tail);
    }
  }

  lemma CloseBodyParses(f: Frame, tail: seq<byte>)
    requires InRange(f)
    requires f.ConnectionClose? || f.ApplicationClose? || f.PathChallenge? || f.PathResponse? || f.HandshakeDone? || f.Ping?
    ensures BodyParses(f, tail)
  {
    hide TakeVarint, TakeUint, TakeBytes, Prepend;
    ReadsBack();
    Unroll();
  }

  lemma FlowBodyParses(f: Frame, tail: seq<byte>)
    requires InRange(f)
    requires f.ResetStream? || f.StopSending? || f.MaxData? || f.MaxStreamData? || f.MaxStreamsBidi? || f.MaxStreamsUni?
             || f.DataBlocked? || f.StreamDataBlocked? || f.StreamsBlockedBidi? || f.StreamsBlockedUni?
             || f.RetireConnectionId?
    ensures BodyParses(f, tail)
  {
    hide TakeVarint, TakeUint, TakeBytes, Prepend;
    ReadsBack();
    Unroll();
  }

  lemma PathBodyParses(f: Frame, tail: seq<byte>)
    requires InRange(f)
    requires f.PathAbandon? || f.PathBackup? || f.PathAvailable? || f.PathRetireConnectionId? || f.MaxPathId?
             || f.PathsBlocked?
    ensures BodyParses(f, tail)
  {
    hide TakeVarint, TakeUint, TakeBytes, Prepend;
    ReadsBack();
    Unroll();
  }

  lemma FlexicastBodyParses(f: Frame, tail: seq<byte>)
    requires InRange(f) && (f.McAnnounce? || f.McState? || f.McKey? || f.FcCongestionInfo?)
    ensures BodyParses(f, tail)
  {
    hide BodyParses;
    if f.McAnnounce? || f.McState? {
      ChannelBodyParses(f, tail);
    } else {
      KeyBodyParses(f, tail);
    }
  }

  lemma ChannelBodyParses(f: Frame, tail: seq<byte>)
    requires InRange(f) && (f.McAnnounce? || f.McState?)
    ensures BodyParses(f, tail)
  {
    hide TakeVarint, TakeUint, TakeBytes, Prepend, ParseAnnounce, ParseState, ParseKey, ParseCongestion, AnnouncePuts, CwndPuts;
    Unroll();
    match f {
      case McAnnounce(channel, ipv6, probe, reset, source, group, port, timer, key, bitrate, qos) =>
        AnnounceRoundTrip(channel, ipv6, probe, reset, source, group, port, timer, key, bitrate, qos, tail);
      case McState(channel, action, data) => StateRoundTrip(channel, action, data, tail);
    }
  }

  lemma KeyBodyParses(f: Frame, tail: seq<byte>)
    requires InRange(f) && (f.McKey? || f.FcCongestionInfo?)
    ensures BodyParses(f, tail)
  {
    hide TakeVarint, TakeUint, TakeBytes, Prepend, ParseAnnounce, ParseState, ParseKey, ParseCongestion, AnnouncePuts, CwndPuts;
    Unroll();
    match f {
      case McKey(channel, key, algo, pn) => KeyRoundTrip(channel, key, algo, pn, tail);
      case FcCongestionInfo(info) => CongestionRoundTrip(info, tail);
    }
  }

  lemma BodyRoundTrip(f: Frame, tail: seq<byte>)
    requires InRange(f) && !f.Padding?
    ensures BodyParses(f, tail)
  {
    hide BodyParses;
    if f.Ack? || f.PathAck? { AckBodyParses(f, tail); }
    else if f.NewConnectionId? || f.PathNewConnectionId? { CidBodyParses(f, tail); }
    else if f.Crypto? || f.NewToken? || f.Stream? || f.Datagram? { DataBodyParses(f, tail); }
    else if f.McAnnounce? || f.McState? || f.McKey? || f.FcCongestionInfo? { FlexicastBodyParses(f, tail); }
    else if f.PathAbandon? || f.PathBackup? || f.PathAvailable? || f.PathRetireConnectionId? || f.MaxPathId? || f.PathsBlocked? {
      PathBodyParses(f, tail);
    }
    else if f.ConnectionClose? || f.ApplicationClose? || f.PathChallenge? || f.PathResponse? || f.HandshakeDone? || f.Ping? {
      CloseBodyParses(f, tail);
    }
    else { FlowBodyParses(f, tail); }
  }

  lemma WireKeepsKind(f: Frame, pkt: PacketType)
    ensures Allowed(pkt, OnWire(f)) == Allowed(pkt, f)
  {
  }

  lemma TypeComesFirst(f: Frame, tail: seq<byte>)
    requires InRange(f) && !f.Padding?
    ensures FramePuts(f).Put? && TypeOf(f) <= MAX_VARINT
    ensures Encode(FramePuts(f), tail) == Prepend(V(TypeOf(f)), Encode(FramePuts(f).next, tail))
  {
    hide TakeVarint, Prepend, ParseBody, AckPuts, CwndPuts, AnnouncePuts;
  }

  /**
   Each frame that is not padding is self-delimiting: before any suffix the parser returns it, if the
   packet type may carry it, and stops exactly where its bytes end.
   */
  lemma FrameRoundTrip(f: Frame, tail: seq<byte>, pkt: PacketType)
    requires InRange(f) && !f.Padding?
    ensures ParseFrame(Encode(FramePuts(f), tail), pkt) ==
            if Allowed(pkt, f) then Got(OnWire(f), tail) else Failed(InvalidPacket)
  {
    hide TakeVarint, Prepend, ParseBody, FramePuts, TypeOf, Allowed, OnWire;
    TypeComesFirst(f, tail);
    WireKeepsKind(f, pkt);
    var ps := FramePuts(f);
    ReadV(TypeOf(f), Encode(ps.next, tail));
    BodyRoundTrip(f, tail);
  }

  /**
   STREAM, CRYPTO and DATAGRAM always carry their length in a two-byte varint: their data survives the
   wire exactly when it has at most 16383 bytes, whatever follows.
   */
  lemma DataLengthIff(f: Frame, tail: seq<byte>)
    requires (f.Stream? && Small(f.streamId) && f.chunk.off + |f.chunk.data| < MAX_STREAM_SIZE)
             || (f.Crypto? && Small(f.chunk.off)) || f.Datagram?
    ensures var n := if f.Datagram? then |f.data| else |f.chunk.data|;
            ParseFrame(Encode(FramePuts(f), tail), Short) == Got(OnWire(f), tail) <==> n <= 16383
  {
    hide TakeVarint, TakeUint, Prepend;
    var data := if f.Datagram? then f.data else f.chunk.data;
    if |data| <= 16383 {
      FrameRoundTrip(f, tail, Short);
    } else {
      ReadV2(|data|, Prepend(B(data), tail));
      ReadsBack();
      Unroll();
      if ParseFrame(Encode(FramePuts(f), tail), Short) == Got(OnWire(f), tail) {
        TakenBack(TakeVarint(Prepend(V2(|data|), Prepend(B(data), tail))), data, tail);
      }
    }
  }

  /** If reading some bytes gives back `data` and `tail`, they were in front. */
  lemma TakenBack(len: Parsed<nat>, data: seq<byte>, tail: seq<byte>)
    requires len.Got? && TakeBytes(len.rest, len.value) == Got(data, tail)
    ensures len == Got(|data|, Prepend(B(data), tail))
  {
    assert len.rest == len.rest[..len.value] + len.rest[len.value..];
  }
}
