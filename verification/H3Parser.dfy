/**
 The resumable HTTP/3 frame parser of h3i/src/frame_parser.rs: a Type / Length / Value machine (section
 7.1 of RFC 9114) fed by reads of any size, against a parser that sees the whole stream at once.
 */
module H3Parser {
  import opened Common
  import opened Varints

  const MAX_STREAM_STATE_SIZE := 2_000_000

  /** A frame as its type and payload. */
  type H3Frame = (nat, seq<byte>)

  /** Whether the HTTP/3 layer can decode a payload of the given type. */
  type Decoder = (nat, seq<byte>) -> bool

  /** Why no further frame comes out of a stream. */
  datatype Ending = Incomplete | Excessive | Undecodable

  /** What a byte stream holds: its leading frames, and what stops the parser after them. */
  datatype Outcome = Outcome(frames: seq<H3Frame>, ending: Ending)

  function Cons(f: H3Frame, o: Outcome): Outcome {
    o.(frames := [f] + o.frames)
  }

  // -------------------------------------------------------------------------
  // The reference: the whole stream at once
  // -------------------------------------------------------------------------

  /** All frames of a stream, parsed in one go; an incomplete last frame is left alone. */
  function OneShot(dec: Decoder, s: seq<byte>): Outcome
    decreases |s|, 2
  {
    match TakeVarint(s)
    case Failed(_) => Outcome([], Incomplete)
    case Got(ty, rest) =>
      DecodedIsShort(s);
      FromLength(dec, ty, rest)
  }

  /** From the length field on. */
  function FromLength(dec: Decoder, ty: nat, s: seq<byte>): Outcome
    decreases |s|, 1
  {
    match TakeVarint(s)
    case Failed(_) => Outcome([], Incomplete)
    case Got(len, rest) =>
      DecodedIsShort(s);
      if len > MAX_STREAM_STATE_SIZE then Outcome([], Excessive) else FromValue(dec, ty, len, rest)
  }

  /** From the payload on. */
  function FromValue(dec: Decoder, ty: nat, len: nat, s: seq<byte>): Outcome
    decreases |s|, 3
  {
    if |s| < len then Outcome([], Incomplete)
    else if !dec(ty, s[..len]) then Outcome([], Undecodable)
    else Cons((ty, s[..len]), OneShot(dec, s[len..]))
  }

  /** A frame on the wire. */
  function FrameBytes(f: H3Frame): seq<byte>
    requires Sendable(f)
  {
    VarintBytes(f.0, VarintLen(f.0)) + VarintBytes(|f.1|, VarintLen(|f.1|)) + f.1
  }

  predicate Sendable(f: H3Frame) {
    f.0 <= MAX_VARINT && |f.1| <= MAX_STREAM_STATE_SIZE
  }

  function StreamBytes(fs: seq<H3Frame>): seq<byte>
    requires forall f <- fs :: Sendable(f)
  {
    if fs == [] then [] else FrameBytes(fs[0]) + StreamBytes(fs[1..])
  }

  lemma OneFrame(dec: Decoder, f: H3Frame, rest: seq<byte>)
    requires Sendable(f) && dec(f.0, f.1)
    ensures OneShot(dec, FrameBytes(f) + rest) == Cons(f, OneShot(dec, rest))
  {
    hide VarintBytes, TakeVarint;
    var a, b := VarintBytes(f.0, VarintLen(f.0)), VarintBytes(|f.1|, VarintLen(|f.1|));
    assert FrameBytes(f) + rest == a + (b + (f.1 + rest));
    VarintRoundTrip(f.0, b + (f.1 + rest));
    assert OneShot(dec, FrameBytes(f) + rest) == FromLength(dec, f.0, b + (f.1 + rest));
    VarintRoundTrip(|f.1|, f.1 + rest);
    assert (f.1 + rest)[..|f.1|] == f.1 && (f.1 + rest)[|f.1|..] == rest;
  }

  /** The reference parser inverts concatenation of frames, and a cut-off tail adds nothing. */
  lemma {:induction false} OneShotInvertsStream(dec: Decoder, fs: seq<H3Frame>, tail: seq<byte>)
    requires forall f <- fs :: Sendable(f) && dec(f.0, f.1)
    ensures OneShot(dec, StreamBytes(fs) + tail)
            == OneShot(dec, tail).(frames := fs + OneShot(dec, tail).frames)
  {
    hide OneShot, FrameBytes, Sendable;
    if fs == [] {
      assert StreamBytes(fs) + tail == tail && fs + OneShot(dec, tail).frames == OneShot(dec, tail).frames;
    } else {
      OneFrame(dec, fs[0], StreamBytes(fs[1..]) + tail);
      OneShotInvertsStream(dec, fs[1..], tail);
      assert StreamBytes(fs) + tail == FrameBytes(fs[0]) + (StreamBytes(fs[1..]) + tail);
      assert [fs[0]] + (fs[1..] + OneShot(dec, tail).frames) == fs + OneShot(dec, tail).frames;
    }
  }

  /** A payload of up to two million bytes is waited for; a longer one ends the parsing as soon as its length is read. */
  lemma SizeLimitIff(dec: Decoder, ty: nat, len: nat, payload: seq<byte>)
    requires ty <= MAX_VARINT && len <= MAX_VARINT
    ensures var o := OneShot(dec, VarintBytes(ty, VarintLen(ty)) + (VarintBytes(len, VarintLen(len)) + payload));
            && (len > 2_000_000 ==> o == Outcome([], Excessive))
            && (len <= 2_000_000 && |payload| < len ==> o == Outcome([], Incomplete))
            && (len <= 2_000_000 && |payload| >= len && !dec(ty, payload[..len]) ==> o == Outcome([], Undecodable))
            && (len <= 2_000_000 && |payload| >= len && dec(ty, payload[..len]) ==> (ty, payload[..len]) in o.frames)
  {
    hide VarintBytes, TakeVarint;
    VarintRoundTrip(ty, VarintBytes(len, VarintLen(len)) + payload);
    VarintRoundTrip(len, payload);
    var more := VarintBytes(len, VarintLen(len)) + payload;
    assert OneShot(dec, VarintBytes(ty, VarintLen(ty)) + more) == FromLength(dec, ty, more);
    assert len <= 2_000_000 ==> FromLength(dec, ty, more) == FromValue(dec, ty, len, payload);
  }

  // -------------------------------------------------------------------------
  // The transport
  // -------------------------------------------------------------------------

  /** How many reads of a script find bytes if there are any. */
  function Productive(script: seq<nat>): nat {
    if script == [] then 0 else (if script[0] > 0 then 1 else 0) + Productive(script[1..])
  }

  /**
   The stream as the transport delivers it: bytes not read yet, and what the next reads will do. A
   script entry of 0 is a read with nothing available, `n` one that finds at most `n` bytes.
   */
  class Transport {
    var data: seq<byte>
    var script: seq<nat>

    /** The script reads the data to the end, even one byte at a time. */
    ghost predicate Ample()
      reads this
    {
      data == [] || Productive(script) >= |data|
    }

    constructor (data: seq<byte>, script: seq<nat>)
      ensures this.data == data && this.script == script
    {
      this.data := data;
      this.script := script;
    }

    /** `stream_recv` into a buffer of `room` bytes. */
    method Recv(room: nat) returns (r: Result<seq<byte>>)
      requires room > 0
      modifies this
      ensures r.Ok? ==> 1 <= |r.value| <= room && old(data) == r.value + data
      ensures r.Err? ==> r == Err(Done) && data == old(data)
      ensures r.Ok? <==> old(script) != [] && old(script)[0] > 0 && old(data) != []
      ensures script == if old(script) == [] then [] else old(script)[1..]
      ensures old(Ample()) ==> Ample()
    {
      if script == [] {
        return Err(Done);
      }
      var most := script[0];
      script := script[1..];
      if most == 0 || data == [] {
        return Err(Done);
      }
      var n := if most < room then most else room;
      n := if n < |data| then n else |data|;
      var out := data[..n];
      data := data[n..];
      return Ok(out);
    }
  }

  datatype FrameState = Type | Len | Val

  datatype ParseResult = Retry | FrameParsed(frame: H3Frame)

  /** What the parser in a given state will make of the bytes to come, read in one go. */
  function Resume(dec: Decoder, state: FrameState, ty: nat, len: nat, s: seq<byte>): Outcome {
    match state
    case Type => OneShot(dec, s)
    case Len => FromLength(dec, ty, s)
    case Val => FromValue(dec, ty, len, s)
  }

  /** A complete varint in the buffer is the varint at the front of the stream. */
  lemma HeldVarint(buf: seq<byte>, rest: seq<byte>)
    requires TakeVarint(buf).Got? && TakeVarint(buf).rest == []
    ensures TakeVarint(buf + rest) == Got(TakeVarint(buf).value, rest)
  {
    var n := ParseLen(buf[0]);
    assert buf[n..] == [];
    assert (buf + rest)[0] == buf[0] && (buf + rest)[..n] == buf[..n] && (buf + rest)[n..] == rest;
  }

  /** Completing a field moves the machine on without changing what is to come. */
  lemma VarintDone(dec: Decoder, ty: nat, buf: seq<byte>, rest: seq<byte>)
    requires TakeVarint(buf).Got? && TakeVarint(buf).rest == []
    ensures var v := TakeVarint(buf).value;
            && Resume(dec, Type, 0, 0, buf + rest) == Resume(dec, Len, v, 0, rest)
            && Resume(dec, Len, ty, 0, buf + rest)
               == if v > MAX_STREAM_STATE_SIZE then Outcome([], Excessive) else Resume(dec, Val, ty, v, rest)
  {
    hide TakeVarint;
    HeldVarint(buf, rest);
  }

  lemma ValueDone(dec: Decoder, ty: nat, buf: seq<byte>, rest: seq<byte>)
    ensures Resume(dec, Val, ty, |buf|, buf + rest)
            == if dec(ty, buf) then Cons((ty, buf), Resume(dec, Type, 0, 0, rest)) else Outcome([], Undecodable)
  {
    hide TakeVarint, OneShot;
    assert (buf + rest)[..|buf|] == buf && (buf + rest)[|buf|..] == rest;
  }

  class FrameParser {
    const dec: Decoder
    var ty: Option<nat>
    var len: Option<nat>
    var currState: FrameState
    var stateBuf: seq<byte>
    var stateOffset: nat
    var stateLen: nat

    constructor (dec: Decoder)
      ensures Valid() && Fresh() && this.dec == dec
    {
      this.dec := dec;
      ty, len := None, None;
      currState := Type;
      stateBuf, stateOffset, stateLen := [0], 0, 1;
    }

    ghost predicate Fresh()
      reads this
    {
      currState.Type? && stateOffset == 0
    }

    /** The part of the current field that has arrived. */
    function Held(): seq<byte>
      requires stateOffset <= |stateBuf|
      reads this
    {
      stateBuf[..stateOffset]
    }

    /** Buffer and fields agree; the buffer may be full. */
    ghost predicate Loose()
      reads this
    {
      && stateOffset <= stateLen == |stateBuf|
      && (currState != Type ==> ty.Some?)
      && (if currState == Val then len.Some? && stateLen == len.value <= MAX_STREAM_STATE_SIZE
          else if stateOffset == 0 then stateLen == 1
          else stateLen == ParseLen(stateBuf[0]))
    }

    /** A frame announced more than the parser will buffer, or cannot be decoded: it stays there. */
    ghost predicate Stuck()
      reads this
    {
      && Loose() && stateOffset == stateLen
      && (|| (currState == Len && TakeVarint(stateBuf).Got? && TakeVarint(stateBuf).value > MAX_STREAM_STATE_SIZE)
          || (currState == Val && !dec(ty.value, stateBuf)))
    }

    /** Between calls the current field is incomplete, or the parser is stuck. */
    ghost predicate Valid()
      reads this
    {
      Loose() && (stateOffset < stateLen || Stuck())
    }

    /** What is still to come out, given the bytes the transport still holds. */
    ghost function Pending(rest: seq<byte>): Outcome
      requires Loose()
      reads this
    {
      match currState
      case Type => Resume(dec, Type, 0, 0, Held() + rest)
      case Len => Resume(dec, Len, ty.value, 0, Held() + rest)
      case Val => Resume(dec, Val, ty.value, len.value, Held() + rest)
    }

    method StateTransition(newState: FrameState, expected: nat) returns (r: Result<()>)
      modifies this`currState, this`stateBuf, this`stateOffset, this`stateLen
      ensures expected > MAX_STREAM_STATE_SIZE ==>
                r == Err(ExcessiveLoad) && currState == old(currState) && stateBuf == old(stateBuf)
                && stateOffset == old(stateOffset) && stateLen == old(stateLen)
      ensures expected <= MAX_STREAM_STATE_SIZE ==>
                r.Ok? && currState == newState && stateOffset == 0 && stateLen == expected == |stateBuf|
    {
      if expected > MAX_STREAM_STATE_SIZE {
        return Err(ExcessiveLoad);
      }
      stateBuf := Resized(stateBuf, expected);
      currState := newState;
      stateOffset := 0;
      stateLen := expected;
      return Ok(());
    }

    /** Reads into the free part of the buffer, unless it is full. */
    method TryFillBuffer(t: Transport) returns (r: Result<nat>)
      requires Loose()
      modifies this`stateBuf, this`stateOffset, t
      ensures stateLen == |stateBuf| && stateOffset <= stateLen
      ensures var full := old(stateOffset) == stateLen;
              && (full ==> r == Ok(0) && t.data == old(t.data) && t.script == old(t.script))
              && (!full ==> t.script == if old(t.script) == [] then [] else old(t.script)[1..])
              && (!full && r.Ok? ==> r.value >= 1)
      ensures r.Err? || r == Ok(0) ==> stateBuf == old(stateBuf) && stateOffset == old(stateOffset) && t.data == old(t.data)
      ensures r.Err? ==> r == Err(Done)
      ensures r.Ok? ==> stateOffset == old(stateOffset) + r.value
      ensures r.Ok? ==> old(Held()) <= Held() && Held() + t.data == old(Held() + t.data)
      ensures old(t.Ample()) ==> t.Ample()
    {
      if stateOffset == stateLen {
        return Ok(0);
      }
      var bytes :- t.Recv(stateLen - stateOffset);
      stateBuf := stateBuf[..stateOffset] + bytes + stateBuf[stateOffset + |bytes|..];
      stateOffset := stateOffset + |bytes|;
      assert Held() == old(Held()) + bytes;
      return Ok(|bytes|);
    }

    /** Sizes the buffer from the first byte; reads the varint once it is complete. */
    method TryConsumeVarint() returns (r: Result<nat>)
      requires currState != Val && stateLen == |stateBuf| && 1 <= stateOffset <= stateLen
      requires stateOffset == 1 || stateLen == ParseLen(stateBuf[0])
      modifies this`stateBuf, this`stateLen
      ensures stateLen == |stateBuf| && 1 <= stateOffset <= stateLen && stateLen == ParseLen(stateBuf[0])
      ensures Held() == old(Held()) && (old(stateLen == ParseLen(stateBuf[0])) ==> stateBuf == old(stateBuf))
      ensures stateOffset < stateLen ==> r == Err(Done)
      ensures stateOffset == stateLen ==> r.Ok? && TakeVarint(stateBuf) == Got(r.value, [])
    {
      if stateOffset == 1 {
        stateLen := ParseLen(stateBuf[0]);
        stateBuf := Resized(stateBuf, stateLen);
      }
      if stateOffset != stateLen {
        return Err(Done);
      }
      assert stateBuf[stateLen..] == [];
      return Ok(TakeVarint(stateBuf).value);
    }

    /** Takes the type over and expects the length; the caller's own transition repeats this one. */
    method SetFrameType(v: nat, ghost rest: seq<byte>)
      requires Loose() && currState == Type && stateOffset == stateLen && TakeVarint(stateBuf) == Got(v, [])
      modifies this
      ensures Loose() && currState == Len && stateOffset == 0
      ensures Pending(rest) == old(Pending(rest))
    {
      hide TakeVarint, Resume, ParseLen;
      assert Held() == stateBuf;
      VarintDone(dec, 0, stateBuf, rest);
      ty := Some(v);
      var _ := StateTransition(Len, 1);
      assert Held() + rest == rest;
    }

    /** Takes the length over and expects the payload, unless it is more than the parser will buffer. */
    method SetFrameLen(v: nat, ghost rest: seq<byte>) returns (r: Result<()>)
      requires Loose() && currState == Len && stateOffset == stateLen && TakeVarint(stateBuf) == Got(v, [])
      modifies this
      ensures r.Ok? <==> v <= MAX_STREAM_STATE_SIZE
      ensures r.Ok? ==> Loose() && currState == Val && stateOffset == 0 && Pending(rest) == old(Pending(rest))
      ensures r.Err? ==> r == Err(ExcessiveLoad) && Stuck() && Pending(rest) == old(Pending(rest)) == Outcome([], Excessive)
    {
      hide TakeVarint, Resume, ParseLen;
      assert Held() == stateBuf;
      VarintDone(dec, ty.value, stateBuf, rest);
      len := Some(v);
      r := StateTransition(Val, v);
      assert Held() == if r.Ok? then [] else stateBuf;
      assert [] + rest == rest;
    }

    /** Hands the complete frame out and starts over. */
    method BuildFrame(ghost rest: seq<byte>) returns (r: Result<H3Frame>)
      requires Loose() && currState == Val && stateOffset == stateLen
      modifies this
      ensures r.Ok? <==> old(dec(ty.value, stateBuf))
      ensures r.Ok? ==> Valid() && Fresh() && old(Pending(rest)) == Cons(r.value, Pending(rest))
      ensures r.Err? ==> r == Err(InvalidFrame) && Stuck() && Pending(rest) == old(Pending(rest)) == Outcome([], Undecodable)
    {
      hide TakeVarint, Resume, ParseLen;
      assert Held() == stateBuf;
      ValueDone(dec, ty.value, stateBuf, rest);
      if !dec(ty.value, stateBuf) {
        return Err(InvalidFrame);
      }
      r := Ok((ty.value, stateBuf));
      ty, len, currState := None, None, Type;
      stateBuf, stateOffset, stateLen := [0], 0, 1;
      assert Held() + rest == rest;
    }

    /**
     One call: a parsed frame is the next frame of the stream, any other result takes nothing from
     the frames to come, and an error other than Done is what ends the stream.
     */
    method TryParseFrame(t: Transport) returns (r: Result<ParseResult>)
      requires Valid()
      modifies this, t
      ensures Valid()
      ensures r.Ok? && r.value.FrameParsed? ==> Fresh() && old(Pending(t.data)) == Cons(r.value.frame, Pending(t.data))
      ensures r == Ok(Retry) || r == Err(Done) ==> !Stuck() && Pending(t.data) == old(Pending(t.data))
      ensures r.Err? && r.error != Done ==> Stuck() && Pending(t.data) == old(Pending(t.data))
      ensures r == Err(ExcessiveLoad) ==> Pending(t.data) == Outcome([], Excessive)
      ensures r == Err(InvalidFrame) ==> Pending(t.data) == Outcome([], Undecodable)
      ensures r.Err? ==> r.error in {Done, ExcessiveLoad, InvalidFrame}
      ensures old(Stuck()) ==> Stuck() && r.Err? && t.data == old(t.data) && t.script == old(t.script)
      ensures !old(Stuck()) && old(t.script) != [] ==> |t.script| < |old(t.script)|
      ensures old(t.Ample()) ==> t.Ample()
    {
      hide TakeVarint, Resume, ParseLen;
      ghost var first := true;
      while true
        invariant Loose() && (stateOffset == stateLen ==> currState == Val || Stuck())
        invariant Pending(t.data) == old(Pending(t.data))
        invariant old(t.Ample()) ==> t.Ample()
        invariant first ==> t.data == old(t.data) && t.script == old(t.script) && Valid() && Stuck() == old(Stuck())
        invariant !first ==> !old(Stuck()) && (old(t.script) != [] ==> |t.script| < |old(t.script)|)
        decreases match currState case Type => 2 case Len => 1 case Val => 0
      {
        var n :- TryFillBuffer(t);
        match currState {
          case Type =>
            var v := TryConsumeVarint();
            if v.Err? {
              return Ok(Retry);
            }
            SetFrameType(v.value, t.data);
          case Len =>
            var v := TryConsumeVarint();
            if v.Err? {
              return Ok(Retry);
            }
            var _ :- SetFrameLen(v.value, t.data);
          case Val =>
            if stateOffset != stateLen {
              return Err(Done);
            }
            var frame :- BuildFrame(t.data);
            return Ok(FrameParsed(frame));
        }
        first := false;
      }
    }
  }

  /** A stream that has run dry yields nothing more. */
  lemma NothingPending(p: FrameParser)
    requires p.Valid()
    ensures p.Pending([]).frames == []
    ensures p.Stuck() <==> p.Pending([]).ending != Incomplete
  {
    assert p.Held() + [] == p.Held();
    if p.stateOffset == p.stateLen {
      assert p.Held() == p.stateBuf;
    }
  }

  /**
   The reading loop of a client: calls the parser until the transport has nothing left to offer or the
   parser gives up. However the reads fall, the frames handed out are the leading frames of the
   stream, none lost, repeated or reordered; all of them if the stream was read to its end.
   */
  method ReadAll(dec: Decoder, data: seq<byte>, script: seq<nat>) returns (out: seq<H3Frame>, end: Ending)
    ensures out <= OneShot(dec, data).frames
    ensures Productive(script) >= |data| ==> Outcome(out, end) == OneShot(dec, data)
    ensures end != Incomplete ==> Outcome(out, end) == OneShot(dec, data)
  {
    hide OneShot;
    var t := new Transport(data, script);
    var p := new FrameParser(dec);
    out := [];
    assert p.Held() + data == data;
    while t.script != []
      invariant p.Valid() && !p.Stuck() && p.dec == dec
      invariant OneShot(dec, data) == Outcome(out + p.Pending(t.data).frames, p.Pending(t.data).ending)
      invariant Productive(script) >= |data| ==> t.Ample()
      decreases |t.script|
    {
      ghost var before := p.Pending(t.data);
      var r := p.TryParseFrame(t);
      match r {
        case Err(ExcessiveLoad) => return out, Excessive;
        case Err(InvalidFrame) => return out, Undecodable;
        case Ok(FrameParsed(f)) =>
          assert out + before.frames == (out + [f]) + p.Pending(t.data).frames;
          out := out + [f];
        case _ =>
      }
    }
    end := Incomplete;
    if t.data == [] {
      NothingPending(p);
    }
  }

  /** Frames sent are frames received, for every way the bytes can be cut into reads. */
  method SendAndRead(dec: Decoder, fs: seq<H3Frame>, script: seq<nat>) returns (out: seq<H3Frame>)
    requires forall f <- fs :: Sendable(f) && dec(f.0, f.1)
    requires Productive(script) >= |StreamBytes(fs)|
    ensures out == fs
  {
    hide Productive, StreamBytes;
    var end;
    out, end := ReadAll(dec, StreamBytes(fs), script);
    OneShotInvertsStream(dec, fs, []);
    assert StreamBytes(fs) + [] == StreamBytes(fs) && fs + [] == fs;
  }

  /** `Vec::resize` with zeros. */
  function Resized(s: seq<byte>, n: nat): (r: seq<byte>)
    ensures |r| == n && forall i :: 0 <= i < n && i < |s| ==> r[i] == s[i]
  {
    if n <= |s| then s[..n] else s + seq(n - |s|, _ => 0)
  }
}
