/**
 Whole payloads and wire lengths: printing any list of frames and parsing the bytes again, and the
 length predictor against the printer (quiche/src/frame.rs).
 */
module FramePayload {
  import opened Common
  import opened Varints
  import opened RangeSpec
  import opened FrameSpec
  import opened FrameProofs
  import opened FrameSafety

  // -------------------------------------------------------------------------
  // Padding
  // -------------------------------------------------------------------------

  lemma PadByte(tail: seq<byte>)
    ensures Prepend(V(0), tail) == [0] + tail
  {
    assert ToBe(0, 1) == [0];
    assert VarintBytes(0, 1) == [0];
  }

  /** Padding in front of `tail`: its zeros add up with those of the tail. */
  lemma {:induction false} PadZeros(n: nat, tail: seq<byte>)
    ensures var s := Encode(PadPuts(n), tail);
            Zeros(s) == n + Zeros(tail) && |s| == n + |tail| && s[Zeros(s)..] == tail[Zeros(tail)..]
    decreases n
  {
    hide Prepend;
    if n > 0 {
      PadZeros(n - 1, tail);
      var t := Encode(PadPuts(n - 1), tail);
      PadByte(t);
      assert ([0] + t)[1..] == t;
    }
  }

  /** A run of zero bytes is one PADDING frame, however many frames it was printed from. */
  lemma ZeroHead(s: seq<byte>, pkt: PacketType)
    requires s != [] && s[0] == 0
    ensures Zeros(s) > 0 && ParseFrame(s, pkt) == Got(Padding(Zeros(s)), s[Zeros(s)..])
  {
    assert s[..1] == [0];
    assert FromBe([0]) == 0 by { assert [0][..0] == []; }
    assert TakeVarint(s) == Got(0, s[1..]);
    assert s[1..][Zeros(s[1..])..] == s[Zeros(s)..];
  }

  /** No other frame starts with a zero byte. */
  lemma NonZeroHead(f: Frame, tail: seq<byte>)
    requires InRange(f) && !f.Padding?
    ensures Encode(FramePuts(f), tail) != [] && Encode(FramePuts(f), tail)[0] != 0
  {
    var ps := FramePuts(f);
    NonZeroType(TypeOf(f), Encode(ps.next, tail));
  }

  lemma NonZeroType(ty: nat, tail: seq<byte>)
    requires 0 < ty <= MAX_VARINT
    ensures Prepend(V(ty), tail) != [] && Prepend(V(ty), tail)[0] != 0
  {
    ReadV(ty, tail);
    var s := Prepend(V(ty), tail);
    if s[0] == 0 {
      ZeroHeadVarint(s);
    }
  }

  lemma ZeroHeadVarint(s: seq<byte>)
    requires s != [] && s[0] == 0
    ensures TakeVarint(s) == Got(0, s[1..])
  {
    assert s[..1] == [0];
    assert FromBe([0]) == 0 by { assert [0][..0] == []; }
  }

  // -------------------------------------------------------------------------
  // Payloads
  // -------------------------------------------------------------------------

  /** Frames the printer accepts: in range, or one of those that write nothing. */
  ghost predicate Sendable(f: Frame) {
    InRange(f) || f.CryptoHeader? || f.StreamHeader? || f.DatagramHeader? || f == Padding(0)
  }

  ghost predicate AllSendable(fs: seq<Frame>) {
    forall i :: 0 <= i < |fs| ==> Sendable(fs[i])
  }

  ghost function PayloadBytes(fs: seq<Frame>): seq<byte>
    requires AllSendable(fs)
  {
    if fs == [] then [] else Encode(FramePuts(fs[0]), PayloadBytes(fs[1..]))
  }

  /** Parsing frame after frame until the bytes are used up. */
  function ParsePayload(s: seq<byte>, pkt: PacketType): Result<seq<Frame>>
    decreases |s|
  {
    if s == [] then Ok([])
    else
      match ParseFrame(s, pkt)
      case Failed(e) => Err(e)
      case Got(f, rest) =>
        FrameForward(s, pkt);
        match ParsePayload(rest, pkt)
        case Err(e) => Err(e)
        case Ok(fs) => Ok([f] + fs)
  }

  /**
   What the receiver sees: frames without bytes vanish, adjacent padding becomes one frame, and marks
   that are not on the wire are dropped.
   */
  function Normalize(fs: seq<Frame>): seq<Frame> {
    if fs == [] then []
    else
      var rest := Normalize(fs[1..]);
      match fs[0]
      case CryptoHeader(_, _) => rest
      case StreamHeader(_, _, _, _) => rest
      case DatagramHeader(_) => rest
      case Padding(n) =>
        if n == 0 then rest
        else if rest != [] && rest[0].Padding? then [Padding(n + rest[0].len)] + rest[1..]
        else [Padding(n)] + rest
      case _ => [OnWire(fs[0])] + rest
  }

  /** The bytes start with zero exactly when the receiver's first frame is padding. */
  lemma {:induction false} ZeroStart(fs: seq<Frame>)
    requires AllSendable(fs)
    ensures PayloadBytes(fs) == [] <==> Normalize(fs) == []
    ensures Normalize(fs) != [] ==> (PayloadBytes(fs)[0] == 0 <==> Normalize(fs)[0].Padding?)
  {
    hide Prepend, InRange;
    if fs != [] {
      var f := fs[0];
      var tail := PayloadBytes(fs[1..]);
      ZeroStart(fs[1..]);
      if f.Padding? {
        PadZeros(f.len, tail);
      } else if InRange(f) {
        NonZeroHead(f, tail);
      }
    }
  }

  lemma ParseCons(s: seq<byte>, pkt: PacketType, f: Frame, rest: seq<byte>)
    requires s != [] && ParseFrame(s, pkt) == Got(f, rest)
    ensures |rest| < |s|
    ensures ParsePayload(s, pkt) == match ParsePayload(rest, pkt) case Err(e) => Err(e) case Ok(fs) => Ok([f] + fs)
  {
    hide ParseFrame;
    FrameForward(s, pkt);
  }

  /** Padding in front of a payload merges with the padding the payload starts with. */
  lemma PadPayload(n: nat, tail: seq<byte>, rest: seq<Frame>)
    requires n > 0 && ParsePayload(tail, Short) == Ok(rest)
    ensures ParsePayload(Encode(PadPuts(n), tail), Short) ==
            Ok(if tail != [] && tail[0] == 0 && rest != [] && rest[0].Padding? then [Padding(n + rest[0].len)] + rest[1..]
               else [Padding(n)] + rest)
    ensures tail != [] && tail[0] == 0 ==> rest != [] && rest[0].Padding?
  {
    hide ParseFrame, Prepend, Encode;
    var s := Encode(PadPuts(n), tail);
    PadZeros(n, tail);
    ZeroHead(s, Short);
    ParseCons(s, Short, Padding(Zeros(s)), s[Zeros(s)..]);
    if tail != [] && tail[0] == 0 {
      ZeroHead(tail, Short);
      ParseCons(tail, Short, Padding(Zeros(tail)), tail[Zeros(tail)..]);
    } else {
      assert Zeros(tail) == 0 && tail[0..] == tail;
    }
  }

  /**
   Payload round trip for every list of frames the printer accepts: parsing the bytes as a 1-RTT
   payload uses up every byte and yields the normalised list.
   */
  lemma {:induction false} PayloadRoundTrip(fs: seq<Frame>)
    requires AllSendable(fs)
    ensures ParsePayload(PayloadBytes(fs), Short) == Ok(Normalize(fs))
  {
    hide InRange, ParseFrame, Prepend, ParsePayload;
    if fs == [] {
      EmptyPayload();
    } else {
      var f := fs[0];
      var tail := PayloadBytes(fs[1..]);
      PayloadRoundTrip(fs[1..]);
      if f.Padding? && f.len > 0 {
        ZeroStart(fs[1..]);
        PadPayload(f.len, tail, Normalize(fs[1..]));
      } else if !f.Padding? && InRange(f) {
        NotHeader(f);
        FrameRoundTrip(f, tail, Short);
        NonZeroHead(f, tail);
        ParseCons(Encode(FramePuts(f), tail), Short, OnWire(f), tail);
      }
    }
  }

  lemma EmptyPayload()
    ensures ParsePayload([], Short) == Ok([])
  {
  }

  lemma NotHeader(f: Frame)
    ensures InRange(f) ==> Printable(f) && !f.CryptoHeader? && !f.StreamHeader? && !f.DatagramHeader? && f != Padding(0)
  {
  }

  /** Nothing in the list vanishes, changes or merges on the way. */
  ghost predicate NormalForm(fs: seq<Frame>) {
    && (forall i :: 0 <= i < |fs| ==> InRange(fs[i]) && OnWire(fs[i]) == fs[i])
    && (forall i :: 0 <= i < |fs| - 1 ==> !(fs[i].Padding? && fs[i + 1].Padding?))
  }

  lemma {:induction false} NormalizeShrinks(fs: seq<Frame>)
    ensures |Normalize(fs)| <= |fs|
  {
    if fs != [] {
      NormalizeShrinks(fs[1..]);
    }
  }

  lemma {:induction false} NormalFormKept(fs: seq<Frame>)
    requires AllSendable(fs)
    ensures Normalize(fs) == fs <==> NormalForm(fs)
  {
    hide InRange;
    if fs != [] {
      var f, tail := fs[0], fs[1..];
      NormalFormKept(tail);
      NormalizeShrinks(tail);
      NotHeader(f);
      assert fs == [f] + tail;
      if Normalize(fs) == fs {
        assert Normalize(fs)[1..] == tail;
        forall i | 0 <= i < |fs| ensures InRange(fs[i]) && OnWire(fs[i]) == fs[i] {
          assert i > 0 ==> fs[i] == tail[i - 1];
        }
        forall i | 0 <= i < |fs| - 1 ensures !(fs[i].Padding? && fs[i + 1].Padding?) {
          assert i > 0 ==> fs[i] == tail[i - 1] && fs[i + 1] == tail[i];
        }
      }
      if NormalForm(fs) {
        assert forall i :: 0 <= i < |tail| ==> tail[i] == fs[i + 1];
        assert NormalForm(tail);
      }
    }
  }

  /** A list comes back unchanged exactly when it is in normal form. */
  lemma PayloadIdentityIff(fs: seq<Frame>)
    requires AllSendable(fs)
    ensures ParsePayload(PayloadBytes(fs), Short) == Ok(fs) <==> NormalForm(fs)
  {
    PayloadRoundTrip(fs);
    NormalFormKept(fs);
  }

  // -------------------------------------------------------------------------
  // Lengths
  // -------------------------------------------------------------------------

  lemma FieldSizes()
    ensures forall v: nat {:trigger FieldBytes(V(v))} :: |FieldBytes(V(v))| == L(v)
    ensures forall v: nat {:trigger FieldBytes(V2(v))} :: |FieldBytes(V2(v))| == 2
    ensures forall v: nat, n: nat {:trigger FieldBytes(U(v, n))} :: |FieldBytes(U(v, n))| == n
    ensures forall bytes {:trigger FieldBytes(B(bytes))} :: |FieldBytes(B(bytes))| == |bytes|
  {
  }

  lemma {:induction false} BlockSizes(rs: seq<Range>, smallest: nat, next: Puts)
    requires Canonical(rs) && (rs != [] ==> rs[|rs| - 1].end < smallest)
    ensures Size(BlockPuts(rs, smallest, next)) == BlockLen(rs, smallest) + Size(next)
    decreases |rs|
  {
    hide FieldBytes;
    if rs != [] {
      FieldSizes();
      Unroll();
      BlockSizes(rs[..|rs| - 1], rs[|rs| - 1].start, next);
    }
  }

  /** The acknowledgement predictor, block loop included. */
  lemma AckSize(delay: nat, rs: seq<Range>, ecn: Option<EcnCounts>)
    requires Canonical(rs) && rs != []
    ensures Size(AckPuts(delay, rs, ecn)) == AckLen(delay, rs, ecn)
  {
    hide FieldBytes, BlockPuts, BlockLen;
    FieldSizes();
    Unroll();
    BlockSizes(rs[..|rs| - 1], rs[|rs| - 1].start, EcnPuts(ecn));
  }

  lemma {:induction false} CwndSize(cs: seq<(seq<byte>, nat)>)
    ensures Size(CwndPuts(cs)) == CwndLen(cs)
  {
    hide FieldBytes;
    if cs != [] {
      FieldSizes();
      Unroll();
      CwndSize(cs[1..]);
    }
  }

  lemma {:induction false} PadSize(n: nat)
    ensures Size(PadPuts(n)) == n
  {
    hide FieldBytes;
    if n > 0 {
      FieldSizes();
      PadSize(n - 1);
    }
  }

  /** The byte arrays of fixed length that the program's types guarantee. */
  predicate FixedFields(f: Frame) {
    match f
    case PathChallenge(data) => |data| == 8
    case PathResponse(data) => |data| == 8
    case McAnnounce(_, _, _, _, source, group, _, _, _, _, _) => |source| == 4 && |group| == 4
    case _ => true
  }

  /** Bytes the predictor forgets: the bitrate of an MC_ANNOUNCE frame. */
  function Forgotten(f: Frame): nat {
    if f.McAnnounce? && f.bitrate.Some? then L(f.bitrate.value) else 0
  }

  /** The predicted length is the printed one, short of a forgotten bitrate. */
  lemma SizeIsWireLen(f: Frame)
    requires Printable(f) && FixedFields(f) && !f.CryptoHeader? && !f.StreamHeader? && !f.DatagramHeader?
    ensures Size(FramePuts(f)) == WireLen(f) + Forgotten(f)
  {
    hide FramePuts, WireLen, Forgotten, Size;
    if f.Padding? || f.Ack? || f.PathAck? || f.FcCongestionInfo? {
      LoopSizes(f);
    } else if f.McAnnounce? || f.McState? || f.McKey? {
      FlexicastSizes(f);
    } else if f.PathAbandon? || f.PathBackup? || f.PathAvailable? || f.PathNewConnectionId? || f.PathRetireConnectionId?
              || f.MaxPathId? || f.PathsBlocked? {
      PathSizes(f);
    } else if f.Ping? || f.ResetStream? || f.StopSending? || f.Crypto? || f.NewToken? || f.Stream? || f.MaxData?
              || f.MaxStreamData? || f.Datagram? || f.ConnectionClose? || f.ApplicationClose? {
      StreamSizes(f);
    } else {
      CoreSizes(f);
    }
  }

  lemma LoopSizes(f: Frame)
    requires Printable(f) && (f.Padding? || f.Ack? || f.PathAck? || f.FcCongestionInfo?)
    ensures Size(FramePuts(f)) == WireLen(f) + Forgotten(f)
  {
    hide FieldBytes, AckPuts, AckLen, PadPuts, CwndPuts, CwndLen, Size, Encode;
    FieldSizes();
    Unroll();
    match f {
      case Padding(len) => PadSize(len);
      case Ack(delay, rs, ecn) => AckSize(delay, rs, ecn);
      case PathAck(_, delay, rs, ecn) => AckSize(delay, rs, ecn);
      case FcCongestionInfo(info) => CwndSize(info.mcCwnds);
      case _ =>
    }
  }

  lemma FlexicastSizes(f: Frame)
    requires FixedFields(f) && (f.McAnnounce? || f.McState? || f.McKey?)
    ensures Size(FramePuts(f)) == WireLen(f) + Forgotten(f)
  {
    hide FieldBytes, L, Size, Encode;
    FieldSizes();
    TypeSizes();
    Unroll();
  }

  lemma PathSizes(f: Frame)
    requires f.PathAbandon? || f.PathBackup? || f.PathAvailable? || f.PathNewConnectionId? || f.PathRetireConnectionId?
             || f.MaxPathId? || f.PathsBlocked?
    ensures Size(FramePuts(f)) == WireLen(f) + Forgotten(f)
  {
    hide FieldBytes, L, Size, Encode;
    FieldSizes();
    TypeSizes();
    Unroll();
  }

  lemma StreamSizes(f: Frame)
    requires Printable(f) && FixedFields(f)
    requires f.Ping? || f.ResetStream? || f.StopSending? || f.Crypto? || f.NewToken? || f.Stream? || f.MaxData?
             || f.MaxStreamData? || f.Datagram? || f.ConnectionClose? || f.ApplicationClose?
    ensures Size(FramePuts(f)) == WireLen(f) + Forgotten(f)
  {
    hide FieldBytes, L, Size, Encode;
    FieldSizes();
    TypeSizes();
    Unroll();
  }

  lemma CoreSizes(f: Frame)
    requires Printable(f) && FixedFields(f)
    requires f.MaxStreamsBidi? || f.MaxStreamsUni? || f.DataBlocked? || f.StreamDataBlocked?
             || f.StreamsBlockedBidi? || f.StreamsBlockedUni? || f.NewConnectionId? || f.RetireConnectionId?
             || f.PathChallenge? || f.PathResponse? || f.HandshakeDone?
    ensures Size(FramePuts(f)) == WireLen(f) + Forgotten(f)
  {
    hide FieldBytes, L, Size, Encode;
    FieldSizes();
    TypeSizes();
    Unroll();
  }

  lemma TypeSizes()
    ensures forall ty: nat {:trigger L(ty)} :: ty <= 63 ==> L(ty) == 1
    ensures forall ty: nat {:trigger L(ty)} :: 0x15228c00 <= ty <= 0x15228c0d ==> L(ty) == 4
  {
  }

  /** The predictor agrees with the printer exactly when no bitrate is announced. */
  lemma WireLenExactIff(f: Frame)
    requires Serialisable(f) && FixedFields(f) && !f.CryptoHeader? && !f.StreamHeader? && !f.DatagramHeader?
    ensures |FrameBytes(f)| == WireLen(f) <==> !(f.McAnnounce? && f.bitrate.Some?)
  {
    hide WireLen, Size, Encode;
    SizeIsWireLen(f);
    EncodeAppends(FramePuts(f), []);
    if f.McAnnounce? && f.bitrate.Some? {
      BitratePuttable(f);
    }
  }

  lemma BitratePuttable(f: Frame)
    requires f.McAnnounce? && f.bitrate.Some? && Puttable(FramePuts(f))
    ensures 1 <= L(f.bitrate.value)
  {
    hide FieldBytes;
    assert Puttable(AnnouncePuts(f.channelId, f.isIpv6, f.probePath, f.resetStreamOnJoin, f.sourceIp, f.groupIp,
                                 f.udpPort, f.expirationTimer, f.publicKey, f.bitrate, f.qos));
    PuttableUnrolls();
  }

  lemma PuttableUnrolls()
    ensures forall f: Field, next {:trigger Puttable(Put(f, next))} ::
              Puttable(Put(f, next)) ==> (f.V? ==> f.v <= MAX_VARINT) && Puttable(next)
  {
  }

  lemma PuttableRolls()
    ensures Puttable(End)
    ensures forall f: Field, next {:trigger Puttable(Put(f, next))} ::
              (f.V? ==> f.v <= MAX_VARINT) && Puttable(next) ==> Puttable(Put(f, next))
  {
  }

  // -------------------------------------------------------------------------
  // In range means printable
  // -------------------------------------------------------------------------

  lemma {:induction false} BlocksPuttable(rs: seq<Range>, smallest: nat, next: Puts)
    requires Canonical(rs) && (rs != [] ==> rs[|rs| - 1].end < smallest) && smallest <= MAX_VARINT + 1 && Puttable(next)
    ensures Puttable(BlockPuts(rs, smallest, next))
    decreases |rs|
  {
    hide Puttable;
    if rs != [] {
      BlocksPuttable(rs[..|rs| - 1], rs[|rs| - 1].start, next);
      PuttableRolls();
    }
  }

  lemma AckPuttable(delay: nat, rs: seq<Range>, ecn: Option<EcnCounts>)
    requires AckInRange(delay, rs, ecn)
    ensures Puttable(AckPuts(delay, rs, ecn))
  {
    hide Puttable, BlockPuts;
    PuttableRolls();
    FewRanges(rs);
    BlocksPuttable(rs[..|rs| - 1], rs[|rs| - 1].start, EcnPuts(ecn));
  }

  lemma {:induction false} LoopsPuttable(n: nat, cs: seq<(seq<byte>, nat)>)
    ensures Puttable(PadPuts(n)) && Puttable(CwndPuts(cs))
    decreases n + |cs|
  {
    if n > 0 {
      LoopsPuttable(n - 1, cs);
    }
    if cs != [] {
      LoopsPuttable(n, cs[1..]);
      hide Puttable;
      PuttableRolls();
    }
  }

  lemma LoopsSerialisable(f: Frame)
    requires InRange(f) && (f.Padding? || f.Ack? || f.PathAck? || f.FcCongestionInfo?)
    ensures Serialisable(f)
  {
    hide Puttable, AckPuts, PadPuts, CwndPuts;
    PuttableRolls();
    match f {
      case Padding(len) => LoopsPuttable(len, []);
      case Ack(delay, rs, ecn) => AckPuttable(delay, rs, ecn);
      case PathAck(_, delay, rs, ecn) => AckPuttable(delay, rs, ecn);
      case FcCongestionInfo(info) => LoopsPuttable(0, info.mcCwnds);
    }
  }

  /** A frame in range never makes the printer panic, and its gaps never underflow. */
  lemma InRangeSerialisable(f: Frame)
    requires InRange(f)
    ensures Serialisable(f)
  {
    hide Puttable, AckPuts, PadPuts, CwndPuts;
    if f.Padding? || f.Ack? || f.PathAck? || f.FcCongestionInfo? {
      LoopsSerialisable(f);
    } else {
      PuttableRolls();
    }
  }
}
