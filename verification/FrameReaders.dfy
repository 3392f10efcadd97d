/**
 The straight-line payloads of `Frame::from_bytes` (quiche/src/frame.rs), read field by field from a cursor.
 */
module FrameReaders {
  import opened Common
  import opened Varints
  import opened Cursors
  import opened FrameSpec

  /** The cursor method did what the parser on values does; after a failure its position does not matter. */
  ghost predicate ReadAs<T>(p: Parsed<T>, r: Result<T>, rest: seq<byte>) {
    match p case Got(v, left) => r == Ok(v) && rest == left case Failed(e) => r == Err(e)
  }

  /** `get_bytes_with_u8_length`. */
  method GetU8Bytes(b: Octets) returns (r: Result<seq<byte>>)
    requires b.Valid()
    modifies b
    ensures b.Valid() && ReadAs(TakeU8Bytes(old(b.Rest())), r, b.Rest())
  {
    hide TakeUint, TakeBytes;
    var n :- b.GetUint(1);
    r := b.GetBytes(n);
  }

  /** `get_bytes_with_varint_length`. */
  method GetVarintBytes(b: Octets) returns (r: Result<seq<byte>>)
    requires b.Valid()
    modifies b
    ensures b.Valid() && ReadAs(TakeVarintBytes(old(b.Rest())), r, b.Rest())
  {
    hide TakeVarint, TakeBytes;
    var n :- b.GetVarint();
    r := b.GetBytes(n);
  }

  method ReadStream(b: Octets, ty: nat) returns (r: Result<Frame>)
    requires b.Valid()
    modifies b
    ensures b.Valid() && ReadAs(ParseStream(ty, old(b.Rest())), r, b.Rest())
  {
    hide TakeVarint, TakeBytes;
    var id :- b.GetVarint();
    var offset: nat, len: nat := 0, 0;
    if (ty / 4) % 2 == 1 {
      offset :- b.GetVarint();
    }
    if (ty / 2) % 2 == 1 {
      len :- b.GetVarint();
    } else {
      len := b.Cap();
    }
    if offset + len >= MAX_STREAM_SIZE {
      return Err(InvalidFrame);
    }
    var data :- b.GetBytes(len);
    return Ok(Stream(id, Chunk(data, offset, ty % 2 == 1)));
  }

  method ReadDatagram(b: Octets, ty: nat) returns (r: Result<Frame>)
    requires b.Valid()
    modifies b
    ensures b.Valid() && ReadAs(ParseDatagram(ty, old(b.Rest())), r, b.Rest())
  {
    hide TakeVarint, TakeBytes;
    var len: nat;
    if ty % 2 == 1 {
      len :- b.GetVarint();
    } else {
      len := b.Cap();
    }
    var data :- b.GetBytes(len);
    return Ok(Datagram(data));
  }

  method ReadCid(b: Octets) returns (r: Result<CidBody>)
    requires b.Valid()
    modifies b
    ensures b.Valid() && ReadAs(ParseCid(old(b.Rest())), r, b.Rest())
  {
    hide TakeVarint, TakeUint, TakeBytes;
    var num :- b.GetVarint();
    var floor :- b.GetVarint();
    var len :- b.GetUint(1);
    if !(1 <= len <= MAX_CID_LEN) {
      return Err(InvalidFrame);
    }
    var cid :- b.GetBytes(len);
    var token :- b.GetBytes(16);
    return Ok(CidBody(num, floor, cid, token));
  }

  method ReadBitrate(b: Octets, ty: nat) returns (r: Result<Option<nat>>)
    requires b.Valid()
    modifies b
    ensures b.Valid() && ReadAs(ParseBitrate(ty, old(b.Rest())), r, b.Rest())
  {
    hide TakeVarint;
    if ty != MC_ANNOUNCE_BW_CODE {
      return Ok(None);
    }
    var rate :- b.GetVarint();
    return Ok(Some(rate));
  }

  method ReadAnnounce(b: Octets, ty: nat) returns (r: Result<Frame>)
    requires b.Valid()
    modifies b
    ensures b.Valid() && ReadAs(ParseAnnounce(ty, old(b.Rest())), r, b.Rest())
  {
    hide TakeVarint, TakeUint, TakeU8Bytes, TakeVarintBytes, TakeBytes, ParseBitrate;
    TakesThatMany();
    var channel :- GetU8Bytes(b);
    var probe :- b.GetBytes(1);
    var ipv6 :- b.GetBytes(1);
    var reset :- b.GetBytes(1);
    var source :- b.GetBytes(4);
    var group :- b.GetBytes(4);
    var port :- b.GetUint(2);
    var timer :- b.GetUint(8);
    var key :- GetVarintBytes(b);
    var bitrate :- ReadBitrate(b, ty);
    var qos :- b.GetBytes(1);
    if qos[0] > 3 {
      return Err(UnknownQos);
    }
    return Ok(McAnnounce(channel, ipv6[0], probe[0], reset[0], source, group, port, timer, key, bitrate, qos[0]));
  }

  lemma TakesThatMany()
    ensures forall s: seq<byte>, n: nat {:trigger TakeBytes(s, n)} :: TakeBytes(s, n).Got? ==> |TakeBytes(s, n).value| == n
  {
  }

  method ReadState(b: Octets) returns (r: Result<Frame>)
    requires b.Valid()
    modifies b
    ensures b.Valid() && ReadAs(ParseState(old(b.Rest())), r, b.Rest())
  {
    hide TakeVarint, TakeU8Bytes;
    var channel :- GetU8Bytes(b);
    var action :- b.GetVarint();
    var data :- b.GetVarint();
    return Ok(McState(channel, action, data));
  }

  method ReadKey(b: Octets) returns (r: Result<Frame>)
    requires b.Valid()
    modifies b
    ensures b.Valid() && ReadAs(ParseKey(old(b.Rest())), r, b.Rest())
  {
    hide TakeVarint, TakeUint, TakeU8Bytes, TakeVarintBytes;
    var channel :- GetU8Bytes(b);
    var key :- GetVarintBytes(b);
    var algo :- b.GetUint(1);
    if algo > 2 {
      return Err(CryptoFail);
    }
    var pn :- b.GetVarint();
    return Ok(McKey(channel, key, if algo == 0 then AES128_GCM else if algo == 1 then AES256_GCM else ChaCha20_Poly1305, pn));
  }

  /** Types 0x01 and 0x04 to 0x0f: PING, stream resets and the frames that carry data. */
  method ReadDataKinds(b: Octets, ty: nat) returns (r: Result<Frame>)
    requires b.Valid() && (ty == 0x01 || 0x04 <= ty <= 0x0f)
    modifies b
    ensures b.Valid() && ReadAs(ParseBody(ty, old(b.Rest())), r, b.Rest())
  {
    hide TakeVarint, TakeBytes, TakeVarintBytes, ParseStream;
    if ty == 0x01 {
      return Ok(Ping(None));
    } else if ty == 0x04 {
      var id :- b.GetVarint();
      var code :- b.GetVarint();
      var size :- b.GetVarint();
      return Ok(ResetStream(id, code, size));
    } else if ty == 0x05 {
      var id :- b.GetVarint();
      var code :- b.GetVarint();
      return Ok(StopSending(id, code));
    } else if ty == 0x06 {
      var offset :- b.GetVarint();
      var data :- GetVarintBytes(b);
      return Ok(Crypto(Chunk(data, offset, false)));
    } else if ty == 0x07 {
      var len :- b.GetVarint();
      if len == 0 {
        return Err(InvalidFrame);
      }
      var token :- b.GetBytes(len);
      return Ok(NewToken(token));
    } else {
      r := ReadStream(b, ty);
    }
  }

  /** Types 0x10 to 0x17: limits and the frames that ask for higher ones. */
  method ReadLimits(b: Octets, ty: nat) returns (r: Result<Frame>)
    requires b.Valid() && 0x10 <= ty <= 0x17
    modifies b
    ensures b.Valid() && ReadAs(ParseBody(ty, old(b.Rest())), r, b.Rest())
  {
    hide TakeVarint;
    var first :- b.GetVarint();
    if ty == 0x11 || ty == 0x15 {
      var second :- b.GetVarint();
      return Ok(if ty == 0x11 then MaxStreamData(first, second) else StreamDataBlocked(first, second));
    }
    return Ok(if ty == 0x10 then MaxData(first) else if ty == 0x12 then MaxStreamsBidi(first)
              else if ty == 0x13 then MaxStreamsUni(first) else if ty == 0x14 then DataBlocked(first)
              else if ty == 0x16 then StreamsBlockedBidi(first) else StreamsBlockedUni(first));
  }

  /** Types 0x18 to 0x1e and the datagrams. */
  method ReadControl(b: Octets, ty: nat) returns (r: Result<Frame>)
    requires b.Valid() && (0x18 <= ty <= 0x1e || ty == 0x30 || ty == 0x31)
    modifies b
    ensures b.Valid() && ReadAs(ParseBody(ty, old(b.Rest())), r, b.Rest())
  {
    hide TakeVarint, TakeBytes, TakeVarintBytes, ParseCid, ParseDatagram;
    if ty == 0x18 {
      var c :- ReadCid(b);
      return Ok(NewConnectionId(c.num, c.floor, c.cid, c.token));
    } else if ty == 0x19 {
      var num :- b.GetVarint();
      return Ok(RetireConnectionId(num));
    } else if ty == 0x1a || ty == 0x1b {
      var data :- b.GetBytes(8);
      return Ok(if ty == 0x1a then PathChallenge(data) else PathResponse(data));
    } else if ty == 0x1c {
      var code :- b.GetVarint();
      var kind :- b.GetVarint();
      var reason :- GetVarintBytes(b);
      return Ok(ConnectionClose(code, kind, reason));
    } else if ty == 0x1d {
      var code :- b.GetVarint();
      var reason :- GetVarintBytes(b);
      return Ok(ApplicationClose(code, reason));
    } else if ty == 0x1e {
      return Ok(HandshakeDone);
    } else {
      r := ReadDatagram(b, ty);
    }
  }

  /** The multipath types without PATH_ACK, the flexicast types without MC_CONGESTION_INFO, and unknown ones. */
  method ReadExtension(b: Octets, ty: nat) returns (r: Result<Frame>)
    requires b.Valid() && ty != 0x15228c00 && ty != 0x15228c01 && ty != MC_CONGESTION_INFO_CODE
    modifies b
    ensures b.Valid() && ReadAs(ParseExtension(ty, old(b.Rest())), r, b.Rest())
  {
    hide TakeVarint, ParseCid, ParseAnnounce, ParseState, ParseKey;
    if ty == 0x15228c05 || ty == 0x15228c07 || ty == 0x15228c08 || ty == 0x15228c0a {
      var path :- b.GetVarint();
      var second :- b.GetVarint();
      return Ok(if ty == 0x15228c05 then PathAbandon(path, second) else if ty == 0x15228c07 then PathBackup(path, second)
                else if ty == 0x15228c08 then PathAvailable(path, second) else PathRetireConnectionId(path, second));
    } else if ty == 0x15228c09 {
      var path :- b.GetVarint();
      var c :- ReadCid(b);
      return Ok(PathNewConnectionId(path, c.num, c.floor, c.cid, c.token));
    } else if ty == 0x15228c0c || ty == 0x15228c0d {
      var max :- b.GetVarint();
      return Ok(if ty == 0x15228c0c then MaxPathId(max) else PathsBlocked(max));
    } else if ty == MC_ANNOUNCE_CODE || ty == MC_ANNOUNCE_BW_CODE {
      r := ReadAnnounce(b, ty);
    } else if ty == MC_STATE_CODE {
      r := ReadState(b);
    } else if ty == MC_KEY_CODE {
      r := ReadKey(b);
    } else {
      return Err(InvalidFrame);
    }
  }

  lemma UnknownIsExtension(ty: nat, s: seq<byte>)
    requires 0x1f <= ty && ty != 0x30 && ty != 0x31
    ensures ParseBody(ty, s) == ParseExtension(ty, s)
  {
    hide ParseExtension, TakeVarint, TakeBytes, TakeVarintBytes, ParseStream, ParseCid, ParseDatagram, ParseAckBody, Zeros;
  }

  /** Every payload without a loop. */
  method ReadBody(b: Octets, ty: nat) returns (r: Result<Frame>)
    requires b.Valid() && ty !in {0x00, 0x02, 0x03, 0x15228c00, 0x15228c01, MC_CONGESTION_INFO_CODE}
    modifies b
    ensures b.Valid() && ReadAs(ParseBody(ty, old(b.Rest())), r, b.Rest())
  {
    hide ParseBody, ParseExtension;
    if ty <= 0x0f {
      r := ReadDataKinds(b, ty);
    } else if ty <= 0x17 {
      r := ReadLimits(b, ty);
    } else if ty <= 0x1e || ty == 0x30 || ty == 0x31 {
      r := ReadControl(b, ty);
    } else {
      UnknownIsExtension(ty, b.Rest());
      r := ReadExtension(b, ty);
    }
  }
}
