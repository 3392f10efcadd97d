/**
 Frames from the outside (section 19 of RFC 9000 and its extensions): the exact bytes of each kind, the
 encodings of STREAM and DATAGRAM only other endpoints use, and which types a packet may carry.
 */
module FrameLaws {
  import opened Common
  import opened Varints
  import opened RangeSpec
  import opened FrameSpec
  import opened FrameProofs

  // -------------------------------------------------------------------------
  // Variable-length integers, against the samples of RFC 9000
  // -------------------------------------------------------------------------

  /** The sample encodings of appendix A.1 of RFC 9000; the last is a longer form of the one before. */
  lemma VarintSamples()
    ensures TakeVarint([0xc2, 0x19, 0x7c, 0x5e, 0xff, 0x14, 0xe8, 0x8c]) == Got(151288809941952652, [])
    ensures TakeVarint([0x9d, 0x7f, 0x3e, 0x7d]) == Got(494878333, [])
    ensures TakeVarint([0x7b, 0xbd]) == Got(15293, [])
    ensures TakeVarint([0x25]) == Got(37, []) && TakeVarint([0x40, 0x25]) == Got(37, [])
  {
    hide TakeVarint, Weigh;
    LongSample();
    MiddleSample();
    TwoBytes(0x7b, 0xbd);
    TwoBytes(0x40, 0x25);
    WholeVarint([0x25]);
    OneWeighs(0, 0x25, []);
    OneWeighs(37, 0, []);
  }

  lemma OneWeighs(acc: nat, a: byte, rest: seq<byte>)
    ensures Weigh(acc, [a] + rest) == Weigh(acc * 256 + a, rest) && Weigh(acc, []) == acc && [a] + [] == [a]
  {
    assert ([a] + rest)[1..] == rest;
  }

  lemma TwoBytes(a: byte, b: byte)
    requires ParseLen(a) == 2
    ensures TakeVarint([a, b]) == Got((a % 64) * 256 + b, [])
  {
    hide TakeVarint, Weigh;
    WholeVarint([a, b]);
    OneWeighs(0, a, [b]);
    OneWeighs(a, b, []);
    OneWeighs(a * 256 + b, 0, []);
    assert [a] + [b] == [a, b];
  }

  lemma MiddleSample()
    ensures TakeVarint([0x9d, 0x7f, 0x3e, 0x7d]) == Got(494878333, [])
  {
    hide TakeVarint, Weigh;
    var s: seq<byte> := [0x9d, 0x7f, 0x3e, 0x7d];
    WholeVarint(s);
    WeighFour(0, 0x9d, 0x7f, 0x3e, 0x7d, []);
    OneWeighs(0x9d7f_3e7d, 0, []);
    assert s + [] == s;
  }

  /** The longest sample: eight bytes, of which the two top bits say so. */
  lemma LongSample()
    ensures TakeVarint([0xc2, 0x19, 0x7c, 0x5e, 0xff, 0x14, 0xe8, 0x8c]) == Got(151288809941952652, [])
  {
    hide TakeVarint, Weigh;
    var high: seq<byte>, low: seq<byte> := [0xc2, 0x19, 0x7c, 0x5e], [0xff, 0x14, 0xe8, 0x8c];
    var s: seq<byte> := [0xc2, 0x19, 0x7c, 0x5e, 0xff, 0x14, 0xe8, 0x8c];
    assert s == high + low && low + [] == low;
    WholeVarint(s);
    WeighFour(0, 0xc2, 0x19, 0x7c, 0x5e, low);
    WeighFour(0xc219_7c5e, 0xff, 0x14, 0xe8, 0x8c, []);
    OneWeighs(0xc219_7c5e_ff14_e88c, 0, []);
  }

  lemma WeighFour(acc: nat, a: byte, b: byte, c: byte, d: byte, rest: seq<byte>)
    ensures Weigh(acc, [a, b, c, d] + rest) == Weigh((((acc * 256 + a) * 256 + b) * 256 + c) * 256 + d, rest)
  {
    assert ([a, b, c, d] + rest)[1..] == [b, c, d] + rest;
    assert ([b, c, d] + rest)[1..] == [c, d] + rest;
    assert ([c, d] + rest)[1..] == [d] + rest;
    assert ([d] + rest)[1..] == rest;
    var x := ((acc * 256 + a) * 256 + b) * 256 + c;
    assert Weigh(x, [d] + rest) == Weigh(x * 256 + d, rest);
    assert Weigh((acc * 256 + a) * 256 + b, [c, d] + rest) == Weigh(x, [d] + rest);
    assert Weigh(acc * 256 + a, [b, c, d] + rest) == Weigh((acc * 256 + a) * 256 + b, [c, d] + rest);
  }

  lemma WholeVarint(s: seq<byte>)
    requires s != [] && |s| == ParseLen(s[0])
    ensures TakeVarint(s) == Got(Weigh(0, s) % VarintLimit(|s|), [])
  {
    FromBeBytes(s);
    assert s[..|s|] == s;
  }

  /** Big-endian: the first byte weighs most. */
  function Weigh(acc: nat, s: seq<byte>): nat
    decreases |s|
  {
    if s == [] then acc else Weigh(acc * 256 + s[0], s[1..])
  }

  lemma {:induction false} WeighAppend(acc: nat, s: seq<byte>, b: byte)
    ensures Weigh(acc, s + [b]) == Weigh(acc, s) * 256 + b
    decreases |s|
  {
    if s == [] {
      assert [] + [b] == [b] && [b][1..] == [];
      assert Weigh(acc, [b]) == Weigh(acc * 256 + b, []);
    } else {
      assert (s + [b])[1..] == s[1..] + [b];
      WeighAppend(acc * 256 + s[0], s[1..], b);
    }
  }

  lemma {:induction false} FromBeBytes(s: seq<byte>)
    ensures FromBe(s) == Weigh(0, s)
  {
    if s != [] {
      FromBeBytes(s[..|s| - 1]);
      WeighAppend(0, s[..|s| - 1], s[|s| - 1]);
      assert s == s[..|s| - 1] + [s[|s| - 1]];
    }
  }

  // -------------------------------------------------------------------------
  // STREAM and DATAGRAM in all their forms
  // -------------------------------------------------------------------------

  /** A field that a type bit says is there, in any legal length. */
  function Field(there: bool, v: nat, n: nat): seq<byte>
    requires LegalLen(n)
  {
    if there then VarintBytes(v, n) else []
  }

  function Bit(b: bool, weight: nat): nat {
    if b then weight else 0
  }

  lemma FieldReads(v: nat, n: nat, rest: seq<byte>)
    requires LegalLen(n) && v < VarintLimit(n)
    ensures TakeVarint(Field(true, v, n) + rest) == Got(v, rest)
  {
    VarintRoundTripIff(v, n, rest);
  }

  /**
   All eight STREAM types (section 19.8 of RFC 9000): bit 0x04 says an offset follows, 0x02 a length, 0x01
   is FIN. Without an offset the data starts at 0, without a length it fills the packet.
   */
  lemma StreamTypes(off: bool, len: bool, fin: bool, id: nat, idLen: nat, offset: nat, offLen: nat, data: seq<byte>,
                    dataLen: nat, tail: seq<byte>)
    requires LegalLen(idLen) && id < VarintLimit(idLen) && LegalLen(offLen) && offset < VarintLimit(offLen)
    requires LegalLen(dataLen) && |data| < VarintLimit(dataLen) && offset + |data| <= MAX_VARINT
    requires (!off ==> offset == 0) && (!len ==> tail == [])
    ensures var ty := 0x08 + Bit(off, 4) + Bit(len, 2) + Bit(fin, 1);
            var s := VarintBytes(id, idLen) + (Field(off, offset, offLen) + (Field(len, |data|, dataLen) + (data + tail)));
            && ParseStream(ty, s) == Got(Stream(id, Chunk(data, offset, fin)), tail)
            && ParseBody(ty, s) == ParseStream(ty, s)
  {
    hide TakeVarint, VarintBytes;
    var body := data + tail;
    var lengthed := Field(len, |data|, dataLen) + body;
    var placed := Field(off, offset, offLen) + lengthed;
    FieldReads(id, idLen, placed);
    if off {
      FieldReads(offset, offLen, lengthed);
    } else {
      assert placed == lengthed;
    }
    if len {
      FieldReads(|data|, dataLen, body);
    } else {
      assert lengthed == body == data;
    }
    assert body[..|data|] == data && body[|data|..] == tail;
  }

  /** Data that would pass the largest stream offset is refused, whatever the form. */
  lemma StreamTooLong(fin: bool, id: nat, offset: nat, length: nat, rest: seq<byte>)
    requires id <= MAX_VARINT && offset <= MAX_VARINT && length <= MAX_VARINT && offset + length > MAX_VARINT
    ensures ParseStream(0x0e + Bit(fin, 1), VarintBytes(id, VarintLen(id)) + (VarintBytes(offset, VarintLen(offset)) +
                        (VarintBytes(length, VarintLen(length)) + rest))) == Failed(InvalidFrame)
  {
    hide TakeVarint, VarintBytes;
    VarintRoundTrip(length, rest);
    VarintRoundTrip(offset, VarintBytes(length, VarintLen(length)) + rest);
    VarintRoundTrip(id, VarintBytes(offset, VarintLen(offset)) + (VarintBytes(length, VarintLen(length)) + rest));
  }

  /** Both DATAGRAM types (section 4 of RFC 9221): without a length the data fills the packet. */
  lemma DatagramTypes(len: bool, data: seq<byte>, dataLen: nat, tail: seq<byte>)
    requires LegalLen(dataLen) && |data| < VarintLimit(dataLen) && (!len ==> tail == [])
    ensures var s := Field(len, |data|, dataLen) + (data + tail);
            && ParseDatagram(0x30 + Bit(len, 1), s) == Got(Datagram(data), tail)
            && ParseBody(0x30 + Bit(len, 1), s) == ParseDatagram(0x30 + Bit(len, 1), s)
  {
    hide TakeVarint, VarintBytes;
    var body := data + tail;
    if len {
      FieldReads(|data|, dataLen, body);
    } else {
      assert Field(false, |data|, dataLen) + body == body == data;
    }
    assert body[..|data|] == data && body[|data|..] == tail;
  }

  /** A new connection ID has 1 to 20 bytes; any other length is refused. */
  lemma CidLengthIff(num: nat, floor: nat, cid: seq<byte>, token: seq<byte>, rest: seq<byte>)
    requires Small(num) && Small(floor) && |cid| <= 255 && |token| == 16
    ensures ParseCid(Encode(CidPuts(num, floor, cid, token), rest)) ==
              if 1 <= |cid| <= 20 then Got(CidBody(num, floor, cid, token), rest) else Failed(InvalidFrame)
  {
    hide TakeVarint, TakeUint, TakeBytes, Prepend;
    ReadsBack();
    Unroll();
  }

  /** An empty token is refused, any other is read back. */
  lemma TokenIff(token: seq<byte>, rest: seq<byte>)
    requires Small(|token|)
    ensures ParseBody(0x07, Prepend(V(|token|), Prepend(B(token), rest))) ==
              if token == [] then Failed(InvalidFrame) else Got(NewToken(token), rest)
  {
    hide TakeVarint, TakeBytes, Prepend;
    ReadsBack();
  }

  /** A key comes with one of three algorithms, numbered from 0; any other number is refused. */
  lemma AlgorithmIff(channel: seq<byte>, key: seq<byte>, algo: byte, pn: nat, rest: seq<byte>)
    requires |channel| <= 255 && Small(|key|) && Small(pn)
    ensures var r := ParseKey(Prepend(U(|channel|, 1), Prepend(B(channel), Prepend(V(|key|), Prepend(B(key),
                       Prepend(U(algo, 1), Prepend(V(pn), rest)))))));
            && (algo == 0 ==> r == Got(McKey(channel, key, AES128_GCM, pn), rest))
            && (algo == 1 ==> r == Got(McKey(channel, key, AES256_GCM, pn), rest))
            && (algo == 2 ==> r == Got(McKey(channel, key, ChaCha20_Poly1305, pn), rest))
            && (algo >= 3 ==> r == Failed(CryptoFail))
  {
    hide TakeVarint, TakeUint, TakeBytes, Prepend;
    ReadsBack();
  }

  /** The qualities of service are numbered from 0 to 3; any other number does not parse. */
  lemma QosIff(channel: seq<byte>, ipv6: byte, probe: byte, reset: byte, source: seq<byte>, group: seq<byte>,
               port: nat, timer: nat, key: seq<byte>, bitrate: Option<nat>, qos: byte, rest: seq<byte>)
    requires |channel| <= 255 && |source| == 4 && |group| == 4 && port <= 0xFFFF && timer < 0x1_0000_0000_0000_0000
    requires Small(|key|) && (bitrate.Some? ==> Small(bitrate.value))
    ensures ParseAnnounce(if bitrate.Some? then 0xf3 else 0xf2,
              Encode(AnnouncePuts(channel, ipv6, probe, reset, source, group, port, timer, key, bitrate, qos), rest)) ==
              if qos <= 3
              then Got(McAnnounce(channel, ipv6, probe, reset, source, group, port, timer, key, bitrate, qos), rest)
              else Failed(UnknownQos)
  {
    hide TakeVarint, TakeUint, TakeBytes, Prepend;
    ReadsBack();
    ReadsWide();
    Unroll();
  }

  // -------------------------------------------------------------------------
  // Packet types
  // -------------------------------------------------------------------------

  /** The types of the multipath extension. */
  predicate Multipath(ty: nat) {
    ty in {0x15228c00, 0x15228c01, 0x15228c05, 0x15228c07, 0x15228c08, 0x15228c09, 0x15228c0a, 0x15228c0c, 0x15228c0d}
  }

  /**
   Which frame types a packet may carry (section 12.4 of RFC 9000, with the program's own entry for
   CONNECTION_CLOSE of the application): 1-RTT packets all; 0-RTT packets none that answer or close;
   the others padding, PING, ACK, CRYPTO and CONNECTION_CLOSE of the transport.
   */
  predicate MayCarry(pkt: PacketType, ty: nat) {
    ty == 0x00 || ty == 0x01 || pkt.Short? ||
    (if pkt.ZeroRTT? then ty !in {0x02, 0x03, 0x06, 0x07, 0x19, 0x1b, 0x1c, 0x1e} && !Multipath(ty)
     else ty in {0x02, 0x03, 0x06, 0x1c})
  }

  /** The kind of frame a type stands for, as far as packets distinguish them. */
  predicate Fits(ty: nat, f: Frame) {
    && (f.Padding? <==> ty == 0x00) && (f.Ping? <==> ty == 0x01) && (f.Ack? <==> ty == 0x02 || ty == 0x03)
    && (f.Crypto? <==> ty == 0x06) && (f.NewToken? <==> ty == 0x07) && (f.RetireConnectionId? <==> ty == 0x19)
    && (f.PathResponse? <==> ty == 0x1b) && (f.ConnectionClose? <==> ty == 0x1c) && (f.HandshakeDone? <==> ty == 0x1e)
    && (f.PathAck? || f.PathAbandon? || f.PathBackup? || f.PathAvailable? || f.PathNewConnectionId?
        || f.PathRetireConnectionId? || f.MaxPathId? || f.PathsBlocked?) == Multipath(ty)
  }

  lemma ExtensionFits(ty: nat, s: seq<byte>)
    requires ty > 0x31 && ParseExtension(ty, s).Got?
    ensures Fits(ty, ParseExtension(ty, s).value)
  {
    hide TakeVarint, TakeBytes, TakeUint, TakeU8Bytes, TakeVarintBytes, ParseAckBody, ParseCid, ParseCwnds, ParseBitrate;
  }

  lemma DataFits(ty: nat, s: seq<byte>)
    requires ty <= 0x0f && ParseBody(ty, s).Got?
    ensures Fits(ty, ParseBody(ty, s).value)
  {
    hide TakeVarint, TakeBytes, TakeVarintBytes, ParseAckBody, ParseCid, Zeros;
  }

  lemma LimitFits(ty: nat, s: seq<byte>)
    requires 0x10 <= ty <= 0x17 && ParseBody(ty, s).Got?
    ensures Fits(ty, ParseBody(ty, s).value)
  {
    hide TakeVarint, TakeBytes, TakeVarintBytes, ParseAckBody, ParseCid, Zeros;
  }

  lemma ControlFits(ty: nat, s: seq<byte>)
    requires 0x18 <= ty <= 0x31 && ParseBody(ty, s).Got?
    ensures Fits(ty, ParseBody(ty, s).value)
  {
    hide TakeVarint, TakeBytes, TakeVarintBytes, ParseAckBody, ParseCid, Zeros;
  }

  lemma BodyFits(ty: nat, s: seq<byte>)
    requires ParseBody(ty, s).Got?
    ensures Fits(ty, ParseBody(ty, s).value)
  {
    hide ParseExtension, ParseStream, ParseDatagram, Parse1, Parse2, Parse8, ParseAckBody, ParseCid, Zeros, Fits;
    if ty > 0x31 {
      ExtensionFits(ty, s);
    } else if ty <= 0x0f {
      DataFits(ty, s);
    } else if ty <= 0x17 {
      LimitFits(ty, s);
    } else {
      ControlFits(ty, s);
    }
  }

  /** A frame that parses is accepted exactly in the packets that may carry its type. */
  lemma PacketCarries(ty: nat, n: nat, body: seq<byte>, pkt: PacketType)
    requires LegalLen(n) && ty < VarintLimit(n) && ParseBody(ty, body).Got?
    ensures ParseFrame(VarintBytes(ty, n) + body, pkt) ==
              if MayCarry(pkt, ty) then Got(ParseBody(ty, body).value, ParseBody(ty, body).rest) else Failed(InvalidPacket)
  {
    hide TakeVarint, VarintBytes, ParseBody;
    VarintRoundTripIff(ty, n, body);
    BodyFits(ty, body);
  }

  /** A frame that does not parse is refused for that reason in every packet. */
  lemma PacketRefuses(ty: nat, n: nat, body: seq<byte>, pkt: PacketType)
    requires LegalLen(n) && ty < VarintLimit(n) && ParseBody(ty, body).Failed?
    ensures ParseFrame(VarintBytes(ty, n) + body, pkt) == Failed(ParseBody(ty, body).error)
  {
    hide TakeVarint, VarintBytes, ParseBody;
    VarintRoundTripIff(ty, n, body);
  }

  // -------------------------------------------------------------------------
  // Lengths of the header-only variants
  // -------------------------------------------------------------------------

  /** A header counts as the frame with that much data. */
  lemma HeaderLengths(id: nat, offset: nat, data: seq<byte>, fin: bool)
    ensures WireLen(CryptoHeader(offset, |data|)) == WireLen(Crypto(Chunk(data, offset, fin)))
    ensures WireLen(StreamHeader(id, offset, |data|, fin)) == WireLen(Stream(id, Chunk(data, offset, fin)))
    ensures WireLen(DatagramHeader(|data|)) == WireLen(Datagram(data))
  {
  }

  // -------------------------------------------------------------------------
  // The exact bytes
  // -------------------------------------------------------------------------

  /** The shortest encoding. */
  function Int(v: nat): seq<byte>
    requires v <= MAX_VARINT
  {
    VarintBytes(v, VarintLen(v))
  }

  lemma SmallInt(v: byte)
    requires v < 64
    ensures Int(v) == [v]
  {
    assert ToBe(v, 1) == ToBe(0, 0) + [v];
  }

  /** The four bytes of a multipath type. */
  lemma MultipathType(low: byte)
    requires low < 16
    ensures Int(0x15228c00 + low) == [0x95, 0x22, 0x8c, low]
  {
    var v := 0x15228c00 + low;
    assert ToBe(v, 4) == ToBe(v / 256, 3) + [low];
    assert ToBe(0x15228c, 3) == ToBe(0x1522, 2) + [0x8c];
    assert ToBe(0x1522, 2) == ToBe(0x15, 1) + [0x22];
    assert ToBe(0x15, 1) == ToBe(0, 0) + [0x15];
  }

  /** Encoding put call by put call, with the shortest encodings named. */
  lemma Written()
    ensures forall f, next {:trigger Encode(Put(f, next), [])} ::
              Encode(Put(f, next), []) == if next.End? then FieldBytes(f) else FieldBytes(f) + Encode(next, [])
    ensures forall v: nat {:trigger FieldBytes(V(v))} ::
              v <= MAX_VARINT ==> FieldBytes(V(v)) == if v < 64 then [v] else Int(v)
    ensures forall v: nat {:trigger Int(v)} :: v < 64 ==> Int(v) == [v]
    ensures forall v: nat {:trigger FieldBytes(U(v, 1))} :: v < 256 ==> FieldBytes(U(v, 1)) == [v]
    ensures forall v: nat {:trigger FieldBytes(V2(v))} :: FieldBytes(V2(v)) == VarintBytes(v, 2)
    ensures forall s {:trigger FieldBytes(B(s))} :: FieldBytes(B(s)) == s
  {
    hide VarintBytes;
    forall f, next
      ensures Encode(Put(f, next), []) == if next.End? then FieldBytes(f) else FieldBytes(f) + Encode(next, [])
    {
      assert FieldBytes(f) + [] == FieldBytes(f);
    }
    forall v: nat | v < 64 ensures Int(v) == [v] {
      SmallInt(v);
    }
    forall v: nat | v < 256 ensures ToBe(v, 1) == [v] {
      assert ToBe(v, 1) == ToBe(v / 256, 0) + [v % 256];
    }
  }

  /** Sections 19.9 to 19.11: limits for data and streams. */
  lemma LimitBytes(a: nat, b: nat)
    requires Small(a) && Small(b)
    ensures FrameBytes(MaxData(a)) == [0x10] + Int(a)
    ensures FrameBytes(MaxStreamData(a, b)) == [0x11] + (Int(a) + Int(b))
    ensures FrameBytes(MaxStreamsBidi(a)) == [0x12] + Int(a) && FrameBytes(MaxStreamsUni(a)) == [0x13] + Int(a)
  {
    hide FieldBytes, Encode, Int;
    Written();
  }

  /** Sections 19.12 to 19.14: the frames that say a limit was reached. */
  lemma BlockedBytes(a: nat, b: nat)
    requires Small(a) && Small(b)
    ensures FrameBytes(DataBlocked(a)) == [0x14] + Int(a)
    ensures FrameBytes(StreamDataBlocked(a, b)) == [0x15] + (Int(a) + Int(b))
    ensures FrameBytes(StreamsBlockedBidi(a)) == [0x16] + Int(a) && FrameBytes(StreamsBlockedUni(a)) == [0x17] + Int(a)
  {
    hide FieldBytes, Encode, Int;
    Written();
  }

  /** Sections 19.4, 19.5 and 19.7: resets and tokens. */
  lemma ResetBytes(a: nat, b: nat, c: nat, token: seq<byte>)
    requires Small(a) && Small(b) && Small(c) && Small(|token|)
    ensures FrameBytes(ResetStream(a, b, c)) == [0x04] + (Int(a) + (Int(b) + Int(c)))
    ensures FrameBytes(StopSending(a, b)) == [0x05] + (Int(a) + Int(b))
    ensures FrameBytes(NewToken(token)) == [0x07] + (Int(|token|) + token)
  {
    hide FieldBytes, Encode, Int;
    Written();
  }

  /** Sections 19.6 and 19.8, and section 4 of RFC 9221: the frames that carry data. */
  lemma DataBytes(a: nat, chunk: Chunk, data: seq<byte>)
    requires Small(a) && Small(chunk.off)
    ensures FrameBytes(Crypto(chunk)) == [0x06] + (Int(chunk.off) + (VarintBytes(|chunk.data|, 2) + chunk.data))
    ensures FrameBytes(Stream(a, chunk)) == [if chunk.fin then 0x0f else 0x0e] +
              (Int(a) + (Int(chunk.off) + (VarintBytes(|chunk.data|, 2) + chunk.data)))
    ensures FrameBytes(Datagram(data)) == [0x31] + (VarintBytes(|data|, 2) + data)
  {
    hide FieldBytes, Encode, Int, VarintBytes;
    Written();
  }

  /** Sections 19.2, 19.16 to 19.18 and 19.20. */
  lemma ControlBytes(a: nat, data: seq<byte>, probe: Option<nat>)
    requires Small(a)
    ensures FrameBytes(Ping(probe)) == [0x01] && FrameBytes(HandshakeDone) == [0x1e]
    ensures FrameBytes(RetireConnectionId(a)) == [0x19] + Int(a)
    ensures FrameBytes(PathChallenge(data)) == [0x1a] + data && FrameBytes(PathResponse(data)) == [0x1b] + data
  {
    hide FieldBytes, Encode, Int;
    Written();
  }

  /** Sections 19.15 and 19.19. */
  lemma CloseBytes(a: nat, b: nat, reason: seq<byte>)
    requires Small(a) && Small(b) && Small(|reason|)
    ensures FrameBytes(ConnectionClose(a, b, reason)) == [0x1c] + (Int(a) + (Int(b) + (Int(|reason|) + reason)))
    ensures FrameBytes(ApplicationClose(a, reason)) == [0x1d] + (Int(a) + (Int(|reason|) + reason))
  {
    hide FieldBytes, Encode, Int;
    Written();
  }

  lemma CidBytes(a: nat, b: nat, cid: seq<byte>, token: seq<byte>)
    requires Small(a) && Small(b) && |cid| <= 255
    ensures CidPuts(a, b, cid, token).Put?
    ensures Encode(CidPuts(a, b, cid, token), []) == Int(a) + (Int(b) + ([|cid|] + (cid + token)))
  {
    hide FieldBytes, Encode, Int;
    Written();
  }

  /** Section 19.15 and its multipath form. */
  lemma NewCidBytes(path: nat, a: nat, b: nat, cid: seq<byte>, token: seq<byte>)
    requires Small(path) && Small(a) && Small(b) && |cid| <= 255
    ensures var body := Int(a) + (Int(b) + ([|cid|] + (cid + token)));
            && FrameBytes(NewConnectionId(a, b, cid, token)) == [0x18] + body
            && FrameBytes(PathNewConnectionId(path, a, b, cid, token)) == Int(0x15228c09) + (Int(path) + body)
  {
    hide Encode, Int, FieldBytes, VarintBytes, VarintLen, ToBe, CidPuts;
    var more := CidPuts(a, b, cid, token);
    CidBytes(a, b, cid, token);
    TypeThen(0x18, more);
    TypeThen(0x15228c09, Put(V(path), more));
    TypeThen(path, more);
    SmallInt(0x18);
  }

  lemma TypeThen(ty: nat, next: Puts)
    requires Small(ty)
    ensures Encode(Put(V(ty), next), []) == Int(ty) + Encode(next, [])
  {
  }

  /** The other multipath frames; MultipathType spells out their types. */
  lemma PathStatusBytes(a: nat, b: nat)
    requires Small(a) && Small(b)
    ensures FrameBytes(PathAbandon(a, b)) == Int(0x15228c05) + (Int(a) + Int(b))
    ensures FrameBytes(PathBackup(a, b)) == Int(0x15228c07) + (Int(a) + Int(b))
    ensures FrameBytes(PathAvailable(a, b)) == Int(0x15228c08) + (Int(a) + Int(b))
  {
    hide Encode, Int, FieldBytes, VarintBytes, VarintLen, ToBe;
    TypedInts(a, b);
  }

  lemma PathLimitBytes(a: nat, b: nat)
    requires Small(a) && Small(b)
    ensures FrameBytes(PathRetireConnectionId(a, b)) == Int(0x15228c0a) + (Int(a) + Int(b))
    ensures FrameBytes(MaxPathId(a)) == Int(0x15228c0c) + Int(a)
    ensures FrameBytes(PathsBlocked(a)) == Int(0x15228c0d) + Int(a)
  {
    hide Encode, Int, FieldBytes, VarintBytes, VarintLen, ToBe;
    TypedInts(a, b);
  }

  lemma TypedInts(a: nat, b: nat)
    requires Small(a) && Small(b)
    ensures forall ty: nat {:trigger Encode(Put(V(ty), Put(V(a), End)), [])} :: Small(ty) ==>
              Encode(Put(V(ty), Put(V(a), End)), []) == Int(ty) + Int(a)
    ensures forall ty: nat {:trigger Encode(Put(V(ty), Put(V(a), Put(V(b), End))), [])} :: Small(ty) ==>
              Encode(Put(V(ty), Put(V(a), Put(V(b), End))), []) == Int(ty) + (Int(a) + Int(b))
  {
    hide Encode, Int;
    OneOrTwo(a, b);
    forall ty: nat | Small(ty)
      ensures Encode(Put(V(ty), Put(V(a), End)), []) == Int(ty) + Int(a)
      ensures Encode(Put(V(ty), Put(V(a), Put(V(b), End))), []) == Int(ty) + (Int(a) + Int(b))
    {
      TypeThen(ty, Put(V(a), End));
      TypeThen(ty, Put(V(a), Put(V(b), End)));
    }
  }

  lemma OneOrTwo(a: nat, b: nat)
    requires Small(a) && Small(b)
    ensures Encode(Put(V(a), End), []) == Int(a)
    ensures Encode(Put(V(a), Put(V(b), End)), []) == Int(a) + Int(b)
  {
    TypeThen(a, End);
    TypeThen(b, End);
    TypeThen(a, Put(V(b), End));
    assert Int(a) + [] == Int(a) && Int(b) + [] == Int(b);
  }

  /** A flexicast type takes two bytes. */
  lemma FlexicastType(ty: byte)
    requires ty >= 64
    ensures Int(ty) == [0x40, ty]
  {
    assert ToBe(ty, 2) == ToBe(ty / 256, 1) + [ty % 256];
    assert ToBe(0, 1) == ToBe(0, 0) + [0];
  }

  /** Their channel, key and window lists; FlexicastType spells out the types. */
  lemma FlexicastBytes(channel: seq<byte>, a: nat, b: nat, key: seq<byte>, algo: Algorithm)
    requires |channel| <= 255 && Small(a) && Small(b) && Small(|key|)
    ensures FrameBytes(McState(channel, a, b)) == Int(0xf4) + ([|channel|] + (channel + (Int(a) + Int(b))))
    ensures FrameBytes(McKey(channel, key, algo, b)) == Int(0xf5) + ([|channel|] + (channel + (Int(|key|) + (key +
              ([match algo case AES128_GCM => 0 case AES256_GCM => 1 case ChaCha20_Poly1305 => 2] + Int(b))))))
  {
    hide FieldBytes, Encode, Int;
    Written();
  }

  /** The bitrate of MC_ANNOUNCE, if any, and the quality of service. */
  function QosPuts(bitrate: Option<nat>, qos: byte): Puts {
    if bitrate.Some? then Put(V(bitrate.value), Put(U(qos, 1), End)) else Put(U(qos, 1), End)
  }

  function KeyPuts(port: nat, timer: nat, key: seq<byte>, last: Puts): Puts {
    Put(U(port, 2), Put(U(timer, 8), Put(V(|key|), Put(B(key), last))))
  }

  lemma QosBytes(rate: nat, qos: byte)
    requires Small(rate)
    ensures Encode(QosPuts(None, qos), []) == [qos] && Encode(QosPuts(Some(rate), qos), []) == Int(rate) + [qos]
    ensures QosPuts(None, qos).Put? && QosPuts(Some(rate), qos).Put?
  {
    hide Encode, Int;
    Written();
  }

  lemma KeyBytes(port: nat, timer: nat, key: seq<byte>, last: Puts)
    requires Small(|key|) && last.Put?
    ensures KeyPuts(port, timer, key, last).Put?
    ensures Encode(KeyPuts(port, timer, key, last), []) ==
              ToBe(port, 2) + (ToBe(timer, 8) + (Int(|key|) + (key + Encode(last, []))))
  {
    hide Encode, Int, ToBe;
    Written();
  }

  lemma ChannelBytes(channel: seq<byte>, ipv6: byte, probe: byte, reset: byte, source: seq<byte>, group: seq<byte>, last: Puts)
    requires |channel| <= 255 && last.Put?
    ensures Encode(Put(U(|channel|, 1), Put(B(channel), Put(U(probe, 1), Put(U(ipv6, 1), Put(U(reset, 1), Put(B(source),
              Put(B(group), last))))))), []) ==
            [|channel|] + (channel + ([probe] + ([ipv6] + ([reset] + (source + (group + Encode(last, [])))))))
  {
    hide Encode, Int, ToBe;
    Written();
  }

  /** MC_ANNOUNCE: the bitrate comes with its own type, right before the quality of service. */
  lemma AnnounceBytes(channel: seq<byte>, ipv6: byte, probe: byte, reset: byte, source: seq<byte>, group: seq<byte>,
                      port: nat, timer: nat, key: seq<byte>, bitrate: Option<nat>, qos: byte)
    requires |channel| <= 255 && Small(|key|) && (bitrate.Some? ==> Small(bitrate.value))
    ensures var last := if bitrate.Some? then Int(bitrate.value) + [qos] else [qos];
            FrameBytes(McAnnounce(channel, ipv6, probe, reset, source, group, port, timer, key, bitrate, qos)) ==
              Int(if bitrate.Some? then 0xf3 else 0xf2) +
              ([|channel|] + (channel + ([probe] + ([ipv6] + ([reset] + (source + (group +
                (ToBe(port, 2) + (ToBe(timer, 8) + (Int(|key|) + (key + last)))))))))))
  {
    hide Encode, Int, ToBe, FieldBytes;
    var qosPuts := QosPuts(bitrate, qos);
    QosBytes(if bitrate.Some? then bitrate.value else 0, qos);
    KeyBytes(port, timer, key, qosPuts);
    ChannelBytes(channel, ipv6, probe, reset, source, group, KeyPuts(port, timer, key, qosPuts));
    TypeThen(if bitrate.Some? then 0xf3 else 0xf2,
             AnnouncePuts(channel, ipv6, probe, reset, source, group, port, timer, key, bitrate, qos));
  }

  /**
   An acknowledgement of two ranges (section 19.3 of RFC 9000): from the highest value down, with the gap
   counted as one less than the values left out.
   */
  lemma AckBytes(low: Range, high: Range, delay: nat)
    requires low.start < low.end < high.start < high.end <= MAX_VARINT + 1 && Small(delay)
    ensures FrameBytes(Ack(delay, [low, high], None)) == [0x02] + (Int(high.end - 1) + (Int(delay) + ([1] +
              (Int(high.end - high.start - 1) + (Int(high.start - low.end - 1) + Int(low.end - low.start - 1))))))
  {
    hide Encode, Int, FieldBytes, VarintBytes, VarintLen, ToBe, BlockPuts, AckPuts;
    var gap, block := high.start - low.end - 1, low.end - low.start - 1;
    var blocks := Put(V(gap), Put(V(block), End));
    var first := Put(V(high.end - high.start - 1), blocks);
    TwoRangePuts(low, high, delay);
    OneOrTwo(gap, block);
    TypeThen(high.end - high.start - 1, blocks);
    TypeThen(1, first);
    TypeThen(delay, Put(V(1), first));
    TypeThen(high.end - 1, Put(V(delay), Put(V(1), first)));
    TypeThen(0x02, AckPuts(delay, [low, high], None));
    SmallInt(1);
    SmallInt(0x02);
  }

  lemma TwoRangePuts(low: Range, high: Range, delay: nat)
    requires low.start < low.end < high.start < high.end
    ensures AckPuts(delay, [low, high], None) ==
              Put(V(high.end - 1), Put(V(delay), Put(V(1), Put(V(high.end - high.start - 1),
                Put(V(high.start - low.end - 1), Put(V(low.end - low.start - 1), End))))))
  {
    hide BlockPuts;
    OneBlock(low, high);
    assert [low, high][..1] == [low];
  }

  lemma OneBlock(low: Range, high: Range)
    requires low.start < low.end < high.start < high.end
    ensures BlockPuts([low], high.start, End) ==
              Put(V(high.start - low.end - 1), Put(V(low.end - 1 - low.start), End))
  {
    assert BlockPuts([], low.start, End) == End;
  }
}
