/**
 QUIC frames (section 19 of RFC 9000) with the multipath and flexicast extensions, as quiche/src/frame.rs
 prints, parses and measures them.
 */
module FrameSpec {
  import opened Common
  import opened Varints
  import opened RangeSpec

  datatype EcnCounts = EcnCounts(ect0: nat, ect1: nat, ce: nat)

  /** Stream data at an offset (`RangeBuf`). */
  datatype Chunk = Chunk(data: seq<byte>, off: nat, fin: bool)

  datatype Algorithm = AES128_GCM | AES256_GCM | ChaCha20_Poly1305

  datatype PacketType = Initial | Retry | Handshake | ZeroRTT | VersionNegotiation | Short

  /** `FcCongestionInfo`, with the round-trip time in nanoseconds. */
  datatype CongestionInfo = CongestionInfo(cwnd: nat, mcCwnds: seq<(seq<byte>, nat)>, rtt: nat)

  /** `ranges` is the ordered listing of the acknowledged `RangeSet`. */
  datatype Frame =
    | Padding(len: nat)
    | Ping(mtuProbe: Option<nat>)
    | Ack(ackDelay: nat, ranges: seq<Range>, ecn: Option<EcnCounts>)
    | ResetStream(streamId: nat, errorCode: nat, finalSize: nat)
    | StopSending(streamId: nat, errorCode: nat)
    | Crypto(chunk: Chunk)
    | CryptoHeader(offset: nat, length: nat)
    | NewToken(token: seq<byte>)
    | Stream(streamId: nat, chunk: Chunk)
    | StreamHeader(streamId: nat, offset: nat, length: nat, fin: bool)
    | MaxData(max: nat)
    | MaxStreamData(streamId: nat, max: nat)
    | MaxStreamsBidi(max: nat)
    | MaxStreamsUni(max: nat)
    | DataBlocked(limit: nat)
    | StreamDataBlocked(streamId: nat, limit: nat)
    | StreamsBlockedBidi(limit: nat)
    | StreamsBlockedUni(limit: nat)
    | NewConnectionId(seqNum: nat, retirePriorTo: nat, connId: seq<byte>, resetToken: seq<byte>)
    | RetireConnectionId(seqNum: nat)
    | PathChallenge(data: seq<byte>)
    | PathResponse(data: seq<byte>)
    | ConnectionClose(errorCode: nat, frameType: nat, reason: seq<byte>)
    | ApplicationClose(errorCode: nat, reason: seq<byte>)
    | HandshakeDone
    | Datagram(data: seq<byte>)
    | DatagramHeader(length: nat)
    | PathAck(pathId: nat, ackDelay: nat, ranges: seq<Range>, ecn: Option<EcnCounts>)
    | PathAbandon(pathId: nat, errorCode: nat)
    | PathBackup(pathId: nat, seqNum: nat)
    | PathAvailable(pathId: nat, seqNum: nat)
    | PathNewConnectionId(pathId: nat, seqNum: nat, retirePriorTo: nat, connId: seq<byte>, resetToken: seq<byte>)
    | PathRetireConnectionId(pathId: nat, seqNum: nat)
    | MaxPathId(maxPathId: nat)
    | PathsBlocked(maxPathId: nat)
    | McAnnounce(channelId: seq<byte>, isIpv6: byte, probePath: byte, resetStreamOnJoin: byte, sourceIp: seq<byte>,
                 groupIp: seq<byte>, udpPort: nat, expirationTimer: nat, publicKey: seq<byte>, bitrate: Option<nat>,
                 qos: byte)
    | McState(channelId: seq<byte>, action: nat, actionData: nat)
    | McKey(channelId: seq<byte>, key: seq<byte>, algo: Algorithm, firstPn: nat)
    | FcCongestionInfo(info: CongestionInfo)

  const MAX_CID_LEN := 20
  const MAX_STREAM_SIZE := 0x4000_0000_0000_0000
  const MC_ANNOUNCE_CODE := 0xf2
  const MC_ANNOUNCE_BW_CODE := 0xf3
  const MC_STATE_CODE := 0xf4
  const MC_KEY_CODE := 0xf5
  const MC_CONGESTION_INFO_CODE := 0xf9

  // -------------------------------------------------------------------------
  // The put calls of the printer
  // -------------------------------------------------------------------------

  /** One put call: a shortest varint, a two-byte varint, a fixed-width integer, or raw bytes. */
  datatype Field = V(v: nat) | V2(v: nat) | U(v: nat, width: nat) | B(bytes: seq<byte>)

  /** The put calls of a frame, in order. */
  datatype Puts = End | Put(field: Field, next: Puts)

  /** A varint of 2^62 or more makes `put_varint` panic, so it has no bytes. */
  function FieldBytes(f: Field): seq<byte> {
    match f
    case V(v) => if v <= MAX_VARINT then VarintBytes(v, VarintLen(v)) else []
    case V2(v) => VarintBytes(v, 2)
    case U(v, width) => ToBe(v, width)
    case B(bytes) => bytes
  }

  /** No put call panics. */
  predicate Puttable(ps: Puts) {
    ps.Put? ==> (ps.field.V? ==> ps.field.v <= MAX_VARINT) && Puttable(ps.next)
  }

  function Prepend(f: Field, tail: seq<byte>): seq<byte> {
    FieldBytes(f) + tail
  }

  /** The bytes the put calls write, followed by `tail`. */
  function Encode(ps: Puts, tail: seq<byte>): seq<byte> {
    match ps case End => tail case Put(f, next) => Prepend(f, Encode(next, tail))
  }

  function Size(ps: Puts): nat {
    match ps case End => 0 case Put(f, next) => |FieldBytes(f)| + Size(next)
  }

  lemma {:induction false} EncodeAppends(ps: Puts, tail: seq<byte>)
    ensures Encode(ps, tail) == Encode(ps, []) + tail && |Encode(ps, tail)| == Size(ps) + |tail|
  {
    if ps.Put? {
      EncodeAppends(ps.next, tail);
      EncodeAppends(ps.next, []);
    }
  }

  // -------------------------------------------------------------------------
  // Printing
  // -------------------------------------------------------------------------

  /** The gap and block lengths of all ranges below `smallest`, from the highest range down. */
  function BlockPuts(rs: seq<Range>, smallest: nat, next: Puts): Puts
    requires Canonical(rs) && (rs != [] ==> rs[|rs| - 1].end < smallest)
  {
    if rs == [] then next
    else
      var b := rs[|rs| - 1];
      Put(V(smallest - b.end - 1), Put(V(b.end - 1 - b.start), BlockPuts(rs[..|rs| - 1], b.start, next)))
  }

  function EcnPuts(ecn: Option<EcnCounts>): Puts {
    match ecn case None => End case Some(c) => Put(V(c.ect0), Put(V(c.ect1), Put(V(c.ce), End)))
  }

  /** `common_ack_to_bytes`: there must be a highest range to start from. */
  function AckPuts(delay: nat, rs: seq<Range>, ecn: Option<EcnCounts>): Puts
    requires Canonical(rs) && rs != []
  {
    var last := rs[|rs| - 1];
    Put(V(last.end - 1), Put(V(delay), Put(V(|rs| - 1), Put(V(last.end - 1 - last.start),
      BlockPuts(rs[..|rs| - 1], last.start, EcnPuts(ecn))))))
  }

  function AlgorithmByte(a: Algorithm): byte {
    match a case AES128_GCM => 0 case AES256_GCM => 1 case ChaCha20_Poly1305 => 2
  }

  function PadPuts(len: nat): Puts {
    if len == 0 then End else Put(V(0x00), PadPuts(len - 1))
  }

  /** The nested list of MC_CONGESTION_INFO. */
  function CwndPuts(cs: seq<(seq<byte>, nat)>): Puts {
    if cs == [] then End else Put(U(|cs[0].0|, 1), Put(B(cs[0].0), Put(U(cs[0].1, 4), CwndPuts(cs[1..]))))
  }

  function CidPuts(num: nat, floor: nat, cid: seq<byte>, token: seq<byte>): Puts {
    Put(V(num), Put(V(floor), Put(U(|cid|, 1), Put(B(cid), Put(B(token), End)))))
  }

  function AnnouncePuts(channel: seq<byte>, ipv6: byte, probe: byte, reset: byte, source: seq<byte>, group: seq<byte>,
                        port: nat, timer: nat, key: seq<byte>, bitrate: Option<nat>, qos: byte): Puts
  {
    Put(U(|channel|, 1), Put(B(channel), Put(U(probe, 1), Put(U(ipv6, 1), Put(U(reset, 1), Put(B(source), Put(B(group),
      Put(U(port, 2), Put(U(timer, 8), Put(V(|key|), Put(B(key),
        if bitrate.Some? then Put(V(bitrate.value), Put(U(qos, 1), End)) else Put(U(qos, 1), End))))))))))))
  }

  /** The frames the printer can take: an acknowledgement needs at least one range. */
  ghost predicate Printable(f: Frame) {
    match f
    case Ack(_, rs, _) => Canonical(rs) && rs != []
    case PathAck(_, _, rs, _) => Canonical(rs) && rs != []
    case _ => true
  }

  /** The put calls `to_bytes` makes for a frame; the header-only variants write nothing. */
  function FramePuts(f: Frame): Puts
    requires Printable(f)
  {
    match f
    case Padding(len) => PadPuts(len)
    case Ping(_) => Put(V(0x01), End)
    case Ack(delay, rs, ecn) => Put(V(if ecn.None? then 0x02 else 0x03), AckPuts(delay, rs, ecn))
    case ResetStream(id, code, size) => Put(V(0x04), Put(V(id), Put(V(code), Put(V(size), End))))
    case StopSending(id, code) => Put(V(0x05), Put(V(id), Put(V(code), End)))
    case Crypto(c) => Put(V(0x06), Put(V(c.off), Put(V2(|c.data|), Put(B(c.data), End))))
    case CryptoHeader(_, _) => End
    case NewToken(token) => Put(V(0x07), Put(V(|token|), Put(B(token), End)))
    case Stream(id, c) =>
      Put(V(if c.fin then 0x0f else 0x0e), Put(V(id), Put(V(c.off), Put(V2(|c.data|), Put(B(c.data), End)))))
    case StreamHeader(_, _, _, _) => End
    case MaxData(max) => Put(V(0x10), Put(V(max), End))
    case MaxStreamData(id, max) => Put(V(0x11), Put(V(id), Put(V(max), End)))
    case MaxStreamsBidi(max) => Put(V(0x12), Put(V(max), End))
    case MaxStreamsUni(max) => Put(V(0x13), Put(V(max), End))
    case DataBlocked(limit) => Put(V(0x14), Put(V(limit), End))
    case StreamDataBlocked(id, limit) => Put(V(0x15), Put(V(id), Put(V(limit), End)))
    case StreamsBlockedBidi(limit) => Put(V(0x16), Put(V(limit), End))
    case StreamsBlockedUni(limit) => Put(V(0x17), Put(V(limit), End))
    case NewConnectionId(num, floor, cid, token) => Put(V(0x18), CidPuts(num, floor, cid, token))
    case RetireConnectionId(num) => Put(V(0x19), Put(V(num), End))
    case PathChallenge(data) => Put(V(0x1a), Put(B(data), End))
    case PathResponse(data) => Put(V(0x1b), Put(B(data), End))
    case ConnectionClose(code, ty, reason) =>
      Put(V(0x1c), Put(V(code), Put(V(ty), Put(V(|reason|), Put(B(reason), End)))))
    case ApplicationClose(code, reason) => Put(V(0x1d), Put(V(code), Put(V(|reason|), Put(B(reason), End))))
    case HandshakeDone => Put(V(0x1e), End)
    case Datagram(data) => Put(V(0x31), Put(V2(|data|), Put(B(data), End)))
    case DatagramHeader(_) => End
    case PathAck(path, delay, rs, ecn) =>
      Put(V(if ecn.None? then 0x15228c00 else 0x15228c01), Put(V(path), AckPuts(delay, rs, ecn)))
    case PathAbandon(path, code) => Put(V(0x15228c05), Put(V(path), Put(V(code), End)))
    case PathBackup(path, num) => Put(V(0x15228c07), Put(V(path), Put(V(num), End)))
    case PathAvailable(path, num) => Put(V(0x15228c08), Put(V(path), Put(V(num), End)))
    case PathNewConnectionId(path, num, floor, cid, token) =>
      Put(V(0x15228c09), Put(V(path), CidPuts(num, floor, cid, token)))
    case PathRetireConnectionId(path, num) => Put(V(0x15228c0a), Put(V(path), Put(V(num), End)))
    case MaxPathId(max) => Put(V(0x15228c0c), Put(V(max), End))
    case PathsBlocked(max) => Put(V(0x15228c0d), Put(V(max), End))
    case McAnnounce(channel, ipv6, probe, reset, source, group, port, timer, key, bitrate, qos) =>
      Put(V(if bitrate.Some? then MC_ANNOUNCE_BW_CODE else MC_ANNOUNCE_CODE),
          AnnouncePuts(channel, ipv6, probe, reset, source, group, port, timer, key, bitrate, qos))
    case McState(channel, action, data) =>
      Put(V(MC_STATE_CODE), Put(U(|channel|, 1), Put(B(channel), Put(V(action), Put(V(data), End)))))
    case McKey(channel, key, algo, pn) =>
      Put(V(MC_KEY_CODE), Put(U(|channel|, 1), Put(B(channel), Put(V(|key|), Put(B(key),
        Put(U(AlgorithmByte(algo), 1), Put(V(pn), End)))))))
    case FcCongestionInfo(info) =>
      Put(V(MC_CONGESTION_INFO_CODE), Put(U(info.cwnd, 4), Put(V(info.rtt), Put(U(|info.mcCwnds|, 1),
        CwndPuts(info.mcCwnds)))))
  }

  /** The frame as bytes. */
  ghost function FrameBytes(f: Frame): seq<byte>
    requires Printable(f)
  {
    Encode(FramePuts(f), [])
  }

  /** `to_bytes` does not panic: a range to acknowledge, and every varint below 2^62. */
  ghost predicate Serialisable(f: Frame) {
    Printable(f) && Puttable(FramePuts(f))
  }

  // -------------------------------------------------------------------------
  // Measuring
  // -------------------------------------------------------------------------

  /** `varint_len`, which panics from 2^62 on. */
  function L(v: nat): nat {
    if v <= MAX_VARINT then VarintLen(v) else 0
  }

  function BlockLen(rs: seq<Range>, smallest: nat): nat
    requires Canonical(rs) && (rs != [] ==> rs[|rs| - 1].end < smallest)
  {
    if rs == [] then 0
    else
      var b := rs[|rs| - 1];
      L(smallest - b.end - 1) + L(b.end - 1 - b.start) + BlockLen(rs[..|rs| - 1], b.start)
  }

  /** `common_ack_wire_len`. */
  function AckLen(delay: nat, rs: seq<Range>, ecn: Option<EcnCounts>): nat
    requires Canonical(rs) && rs != []
  {
    var last := rs[|rs| - 1];
    L(last.end - 1) + L(delay) + L(|rs| - 1) + L(last.end - 1 - last.start) + BlockLen(rs[..|rs| - 1], last.start)
    + (match ecn case None => 0 case Some(c) => L(c.ect0) + L(c.ect1) + L(c.ce))
  }

  function CwndLen(cs: seq<(seq<byte>, nat)>): nat {
    if cs == [] then 0 else 1 + |cs[0].0| + 4 + CwndLen(cs[1..])
  }

  /** `wire_len`. */
  ghost function WireLen(f: Frame): nat
    requires Printable(f)
  {
    match f
    case Padding(len) => len
    case Ping(_) => 1
    case Ack(delay, rs, ecn) => 1 + AckLen(delay, rs, ecn)
    case ResetStream(id, code, size) => 1 + L(id) + L(code) + L(size)
    case StopSending(id, code) => 1 + L(id) + L(code)
    case Crypto(c) => 1 + L(c.off) + 2 + |c.data|
    case CryptoHeader(offset, length) => 1 + L(offset) + 2 + length
    case NewToken(token) => 1 + L(|token|) + |token|
    case Stream(id, c) => 1 + L(id) + L(c.off) + 2 + |c.data|
    case StreamHeader(id, offset, length, _) => 1 + L(id) + L(offset) + 2 + length
    case MaxData(max) => 1 + L(max)
    case MaxStreamData(id, max) => 1 + L(id) + L(max)
    case MaxStreamsBidi(max) => 1 + L(max)
    case MaxStreamsUni(max) => 1 + L(max)
    case DataBlocked(limit) => 1 + L(limit)
    case StreamDataBlocked(id, limit) => 1 + L(id) + L(limit)
    case StreamsBlockedBidi(limit) => 1 + L(limit)
    case StreamsBlockedUni(limit) => 1 + L(limit)
    case NewConnectionId(num, floor, cid, token) => 1 + L(num) + L(floor) + 1 + |cid| + |token|
    case RetireConnectionId(num) => 1 + L(num)
    case PathChallenge(_) => 1 + 8
    case PathResponse(_) => 1 + 8
    case ConnectionClose(code, ty, reason) => 1 + L(code) + L(ty) + L(|reason|) + |reason|
    case ApplicationClose(code, reason) => 1 + L(code) + L(|reason|) + |reason|
    case HandshakeDone => 1
    case Datagram(data) => 1 + 2 + |data|
    case DatagramHeader(length) => 1 + 2 + length
    case PathAck(path, delay, rs, ecn) => 4 + L(path) + AckLen(delay, rs, ecn)
    case PathAbandon(path, code) => 4 + L(path) + L(code)
    case PathBackup(path, num) => 4 + L(path) + L(num)
    case PathAvailable(path, num) => 4 + L(path) + L(num)
    case PathNewConnectionId(path, num, floor, cid, token) => 4 + L(path) + L(num) + L(floor) + 1 + |cid| + |token|
    case PathRetireConnectionId(path, num) => 4 + L(path) + L(num)
    case MaxPathId(max) => 4 + L(max)
    case PathsBlocked(max) => 4 + L(max)
    case McAnnounce(channel, _, _, _, _, _, _, _, key, bitrate, _) =>
      L(if bitrate.Some? then MC_ANNOUNCE_BW_CODE else MC_ANNOUNCE_CODE) + 1 + |channel| + 1 + 1 + 1 + 4 + 4 + 2 + 8
      + L(|key|) + |key| + 1
    case McState(channel, action, data) => L(MC_STATE_CODE) + 1 + |channel| + L(action) + L(data)
    case McKey(channel, key, _, pn) => L(MC_KEY_CODE) + 1 + |channel| + L(|key|) + |key| + 1 + L(pn)
    case FcCongestionInfo(info) => L(MC_CONGESTION_INFO_CODE) + 4 + L(info.rtt) + 1 + CwndLen(info.mcCwnds)
  }

  // -------------------------------------------------------------------------
  // Parsing
  // -------------------------------------------------------------------------

  function TakeU8Bytes(s: seq<byte>): Parsed<seq<byte>> {
    var (n, s) :- TakeUint(s, 1);
    TakeBytes(s, n)
  }

  function TakeVarintBytes(s: seq<byte>): Parsed<seq<byte>> {
    var (n, s) :- TakeVarint(s);
    TakeBytes(s, n)
  }

  /** Number of leading zero bytes. */
  function Zeros(s: seq<byte>): (n: nat)
    ensures n <= |s| && (forall i :: 0 <= i < n ==> s[i] == 0) && (n < |s| ==> s[n] != 0)
  {
    if s == [] || s[0] != 0 then 0 else 1 + Zeros(s[1..])
  }

  /** The loop of `parse_common_ack_frame` over `count` blocks below `smallest`. */
  function ParseBlocks(s: seq<byte>, count: nat, smallest: nat, acc: seq<Range>): Parsed<seq<Range>>
    decreases count
  {
    if count == 0 then Got(acc, s)
    else
      var (gap, s) :- TakeVarint(s);
      if smallest < 2 + gap then Failed(InvalidFrame)
      else
        var largest: nat := smallest - gap - 2;
        var (block, s) :- TakeVarint(s);
        if largest < block then Failed(InvalidFrame)
        else ParseBlocks(s, count - 1, largest - block, InsertRange(acc, largest - block, largest + 1))
  }

  datatype AckBody = AckBody(delay: nat, ranges: seq<Range>, ecn: Option<EcnCounts>)

  function ParseEcn(s: seq<byte>, hasEcn: bool): Parsed<Option<EcnCounts>> {
    if !hasEcn then Got(None, s)
    else
      var (ect0, s) :- TakeVarint(s);
      var (ect1, s) :- TakeVarint(s);
      var (ce, s) :- TakeVarint(s);
      Got(Some(EcnCounts(ect0, ect1, ce)), s)
  }

  /** `parse_common_ack_frame`. */
  function ParseAckBody(s: seq<byte>, hasEcn: bool): Parsed<AckBody> {
    var (largest, s) :- TakeVarint(s);
    var (delay, s) :- TakeVarint(s);
    var (count, s) :- TakeVarint(s);
    var (block, s) :- TakeVarint(s);
    if largest < block then Failed(InvalidFrame)
    else
      var (ranges, s) :- ParseBlocks(s, count, largest - block, InsertRange([], largest - block, largest + 1));
      var (ecn, s) :- ParseEcn(s, hasEcn);
      Got(AckBody(delay, ranges, ecn), s)
  }

  /** `parse_stream_frame`: bits of the type say whether offset, length and FIN are present. */
  function ParseStream(ty: nat, s: seq<byte>): Parsed<Frame> {
    var (id, s) :- TakeVarint(s);
    var (offset, s) :- if (ty / 4) % 2 == 1 then TakeVarint(s) else Got(0, s);
    var (len, s) :- if (ty / 2) % 2 == 1 then TakeVarint(s) else Got(|s|, s);
    if offset + len >= MAX_STREAM_SIZE then Failed(InvalidFrame)
    else
      var (data, s) :- TakeBytes(s, len);
      Got(Stream(id, Chunk(data, offset, ty % 2 == 1)), s)
  }

  /** `parse_datagram_frame`. */
  function ParseDatagram(ty: nat, s: seq<byte>): Parsed<Frame> {
    var (len, s) :- if ty % 2 == 1 then TakeVarint(s) else Got(|s|, s);
    var (data, s) :- TakeBytes(s, len);
    Got(Datagram(data), s)
  }

  datatype CidBody = CidBody(num: nat, floor: nat, cid: seq<byte>, token: seq<byte>)

  /** The common part of NEW_CONNECTION_ID and PATH_NEW_CONNECTION_ID. */
  function ParseCid(s: seq<byte>): Parsed<CidBody> {
    var (num, s) :- TakeVarint(s);
    var (floor, s) :- TakeVarint(s);
    var (len, s) :- TakeUint(s, 1);
    if !(1 <= len <= MAX_CID_LEN) then Failed(InvalidFrame)
    else
      var (cid, s) :- TakeBytes(s, len);
      var (token, s) :- TakeBytes(s, 16);
      Got(CidBody(num, floor, cid, token), s)
  }

  function ParseAnnounce(ty: nat, s: seq<byte>): Parsed<Frame> {
    var (channel, s) :- TakeU8Bytes(s);
    var (probe, s) :- TakeBytes(s, 1);
    var (ipv6, s) :- TakeBytes(s, 1);
    var (reset, s) :- TakeBytes(s, 1);
    var (source, s) :- TakeBytes(s, 4);
    var (group, s) :- TakeBytes(s, 4);
    var (port, s) :- TakeUint(s, 2);
    var (timer, s) :- TakeUint(s, 8);
    var (key, s) :- TakeVarintBytes(s);
    var (bitrate, s) :- ParseBitrate(ty, s);
    var (qos, s) :- TakeBytes(s, 1);
    if qos[0] > 3 then Failed(UnknownQos)
    else Got(McAnnounce(channel, ipv6[0], probe[0], reset[0], source, group, port, timer, key, bitrate, qos[0]), s)
  }

  function ParseBitrate(ty: nat, s: seq<byte>): Parsed<Option<nat>> {
    if ty == MC_ANNOUNCE_BW_CODE then
      var (rate, s) :- TakeVarint(s);
      Got(Some(rate), s)
    else Got(None, s)
  }

  function ParseState(s: seq<byte>): Parsed<Frame> {
    var (channel, s) :- TakeU8Bytes(s);
    var (action, s) :- TakeVarint(s);
    var (data, s) :- TakeVarint(s);
    Got(McState(channel, action, data), s)
  }

  function ParseKey(s: seq<byte>): Parsed<Frame> {
    var (channel, s) :- TakeU8Bytes(s);
    var (key, s) :- TakeVarintBytes(s);
    var (algo, s) :- TakeUint(s, 1);
    if algo > 2 then Failed(CryptoFail)
    else
      var (pn, s) :- TakeVarint(s);
      Got(McKey(channel, key, if algo == 0 then AES128_GCM else if algo == 1 then AES256_GCM else ChaCha20_Poly1305, pn), s)
  }

  /** The loop over the nested list of MC_CONGESTION_INFO. */
  function ParseCwnds(s: seq<byte>, count: nat): Parsed<seq<(seq<byte>, nat)>>
    decreases count
  {
    if count == 0 then Got([], s)
    else
      var (channel, s) :- TakeU8Bytes(s);
      var (cwnd, s) :- TakeUint(s, 4);
      var (more, s) :- ParseCwnds(s, count - 1);
      Got([(channel, cwnd)] + more, s)
  }

  function ParseCongestion(s: seq<byte>): Parsed<Frame> {
    var (cwnd, s) :- TakeUint(s, 4);
    var (rtt, s) :- TakeVarint(s);
    var (count, s) :- TakeUint(s, 1);
    var (mc, s) :- ParseCwnds(s, count);
    Got(FcCongestionInfo(CongestionInfo(cwnd, mc, rtt)), s)
  }

  function Parse1(s: seq<byte>, make: nat -> Frame): Parsed<Frame> {
    var (a, s) :- TakeVarint(s);
    Got(make(a), s)
  }

  function Parse2(s: seq<byte>, make: (nat, nat) -> Frame): Parsed<Frame> {
    var (a, s) :- TakeVarint(s);
    var (b, s) :- TakeVarint(s);
    Got(make(a, b), s)
  }

  function Parse8(s: seq<byte>, make: seq<byte> -> Frame): Parsed<Frame> {
    var (data, s) :- TakeBytes(s, 8);
    Got(make(data), s)
  }

  /** The payload of a frame whose type was read already. */
  function ParseBody(ty: nat, s: seq<byte>): Parsed<Frame> {
    if ty == 0x00 then Got(Padding(1 + Zeros(s)), s[Zeros(s)..])
    else if ty == 0x01 then Got(Ping(None), s)
    else if ty == 0x02 || ty == 0x03 then
      var (a, s) :- ParseAckBody(s, ty == 0x03);
      Got(Ack(a.delay, a.ranges, a.ecn), s)
    else if ty == 0x04 then
      var (id, s) :- TakeVarint(s);
      var (code, s) :- TakeVarint(s);
      var (size, s) :- TakeVarint(s);
      Got(ResetStream(id, code, size), s)
    else if ty == 0x05 then Parse2(s, (a: nat, b: nat) => StopSending(a, b))
    else if ty == 0x06 then
      var (offset, s) :- TakeVarint(s);
      var (data, s) :- TakeVarintBytes(s);
      Got(Crypto(Chunk(data, offset, false)), s)
    else if ty == 0x07 then
      var (len, s) :- TakeVarint(s);
      if len == 0 then Failed(InvalidFrame)
      else
        var (token, s) :- TakeBytes(s, len);
        Got(NewToken(token), s)
    else if 0x08 <= ty <= 0x0f then ParseStream(ty, s)
    else if ty == 0x10 then Parse1(s, (a: nat) => MaxData(a))
    else if ty == 0x11 then Parse2(s, (a: nat, b: nat) => MaxStreamData(a, b))
    else if ty == 0x12 then Parse1(s, (a: nat) => MaxStreamsBidi(a))
    else if ty == 0x13 then Parse1(s, (a: nat) => MaxStreamsUni(a))
    else if ty == 0x14 then Parse1(s, (a: nat) => DataBlocked(a))
    else if ty == 0x15 then Parse2(s, (a: nat, b: nat) => StreamDataBlocked(a, b))
    else if ty == 0x16 then Parse1(s, (a: nat) => StreamsBlockedBidi(a))
    else if ty == 0x17 then Parse1(s, (a: nat) => StreamsBlockedUni(a))
    else if ty == 0x18 then
      var (c, s) :- ParseCid(s);
      Got(NewConnectionId(c.num, c.floor, c.cid, c.token), s)
    else if ty == 0x19 then Parse1(s, (a: nat) => RetireConnectionId(a))
    else if ty == 0x1a then Parse8(s, (data: seq<byte>) => PathChallenge(data))
    else if ty == 0x1b then Parse8(s, (data: seq<byte>) => PathResponse(data))
    else if ty == 0x1c then
      var (code, s) :- TakeVarint(s);
      var (t, s) :- TakeVarint(s);
      var (reason, s) :- TakeVarintBytes(s);
      Got(ConnectionClose(code, t, reason), s)
    else if ty == 0x1d then
      var (code, s) :- TakeVarint(s);
      var (reason, s) :- TakeVarintBytes(s);
      Got(ApplicationClose(code, reason), s)
    else if ty == 0x1e then Got(HandshakeDone, s)
    else if ty == 0x30 || ty == 0x31 then ParseDatagram(ty, s)
    else ParseExtension(ty, s)
  }

  /** The multipath and flexicast types. */
  function ParseExtension(ty: nat, s: seq<byte>): Parsed<Frame> {
    if ty == 0x15228c00 || ty == 0x15228c01 then
      var (path, s) :- TakeVarint(s);
      var (a, s) :- ParseAckBody(s, ty == 0x15228c01);
      Got(PathAck(path, a.delay, a.ranges, a.ecn), s)
    else if ty == 0x15228c05 then Parse2(s, (a: nat, b: nat) => PathAbandon(a, b))
    else if ty == 0x15228c07 then Parse2(s, (a: nat, b: nat) => PathBackup(a, b))
    else if ty == 0x15228c08 then Parse2(s, (a: nat, b: nat) => PathAvailable(a, b))
    else if ty == 0x15228c09 then
      var (path, s) :- TakeVarint(s);
      var (c, s) :- ParseCid(s);
      Got(PathNewConnectionId(path, c.num, c.floor, c.cid, c.token), s)
    else if ty == 0x15228c0a then Parse2(s, (a: nat, b: nat) => PathRetireConnectionId(a, b))
    else if ty == 0x15228c0c then Parse1(s, (a: nat) => MaxPathId(a))
    else if ty == 0x15228c0d then Parse1(s, (a: nat) => PathsBlocked(a))
    else if ty == MC_ANNOUNCE_CODE || ty == MC_ANNOUNCE_BW_CODE then ParseAnnounce(ty, s)
    else if ty == MC_STATE_CODE then ParseState(s)
    else if ty == MC_KEY_CODE then ParseKey(s)
    else if ty == MC_CONGESTION_INFO_CODE then ParseCongestion(s)
    else Failed(InvalidFrame)
  }

  /** Which frames a packet type may carry. */
  predicate Allowed(pkt: PacketType, f: Frame) {
    if f.Padding? || f.Ping? then true
    else if pkt.ZeroRTT? then
      !(f.Ack? || f.Crypto? || f.HandshakeDone? || f.NewToken? || f.PathResponse? || f.RetireConnectionId?
        || f.ConnectionClose? || f.PathAck? || f.PathAbandon? || f.PathBackup? || f.PathAvailable?
        || f.PathNewConnectionId? || f.PathRetireConnectionId? || f.MaxPathId? || f.PathsBlocked?)
    else if pkt.Short? then true
    else f.Ack? || f.Crypto? || f.ConnectionClose?
  }

  /** `from_bytes`. */
  function ParseFrame(s: seq<byte>, pkt: PacketType): Parsed<Frame> {
    var (ty, s) :- TakeVarint(s);
    var (f, s) :- ParseBody(ty, s);
    if Allowed(pkt, f) then Got(f, s) else Failed(InvalidPacket)
  }
}
