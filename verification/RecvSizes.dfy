/**
 The final size of a stream (section 4.5 of RFC 9000): what `RecvBuf::write` of quiche/src/stream/recv_buf.rs
 accepts over whole runs, said without its own state.
 */
module RecvSizes {
  import opened Common
  import opened FrameSpec
  import opened RecvSpec
  import opened RecvBuffers

  /** What a buffer knows about the size: the fin offset and the length so far. */
  datatype Extent = Extent(finOff: Option<nat>, len: nat)

  /** A chunk, written while the peer may send up to `limit`. */
  datatype Arrival = Arrival(limit: nat, c: Chunk)

  function Answer(x: Extent, a: Arrival): Option<Error> {
    WriteError(a.limit, x.finOff, x.len, a.c)
  }

  function After(x: Extent, a: Arrival): Extent {
    if Answer(x, a).Some? then x
    else
      Extent(if x.finOff.None? && a.c.fin then Some(MaxOff(a.c)) else x.finOff,
             if Carries(a.c, x.finOff) && x.len < MaxOff(a.c) then MaxOff(a.c) else x.len)
  }

  function Run(run: seq<Arrival>): Extent {
    if run == [] then Extent(None, 0) else After(Run(run[..|run| - 1]), run[|run| - 1])
  }

  /** The chunks that were accepted, in order. */
  function Accepted(run: seq<Arrival>): seq<Chunk> {
    if run == [] then []
    else
      var before, a := run[..|run| - 1], run[|run| - 1];
      Accepted(before) + if Answer(Run(before), a).None? then [a.c] else []
  }

  /** An earlier chunk with fin ends the stream there; a chunk with fin cannot end it before earlier data. */
  predicate Agrees(earlier: Chunk, c: Chunk) {
    && (earlier.fin ==> MaxOff(c) <= MaxOff(earlier))
    && (c.fin && (earlier.data != [] || earlier.fin) ==> MaxOff(earlier) <= MaxOff(c))
  }

  /** The extent is the end of what was accepted. */
  ghost predicate Describes(x: Extent, accepted: seq<Chunk>) {
    && (x.finOff.Some? <==> exists b :: b in accepted && b.fin)
    && (forall b <- accepted :: b.fin ==> x.finOff == Some(MaxOff(b)))
    && (forall b <- accepted :: b.data != [] || b.fin ==> MaxOff(b) <= x.len)
    && (x.len > 0 ==> exists b :: b in accepted && (b.data != [] || b.fin) && MaxOff(b) == x.len)
    && (x.finOff.Some? ==> x.len == x.finOff.value)
  }

  lemma AnswerIff(x: Extent, accepted: seq<Chunk>, a: Arrival)
    requires Describes(x, accepted)
    ensures Answer(x, a) == Some(FlowLimit) <==> MaxOff(a.c) > a.limit
    ensures Answer(x, a).None? <==> MaxOff(a.c) <= a.limit && forall b <- accepted :: Agrees(b, a.c)
    ensures Answer(x, a) in {None, Some(FlowLimit), Some(FinalSize)}
  {
    if x.finOff.Some? {
      var b :| b in accepted && b.fin;
    }
    if x.len > 0 {
      var b :| b in accepted && (b.data != [] || b.fin) && MaxOff(b) == x.len;
    }
  }

  lemma AfterDescribes(x: Extent, accepted: seq<Chunk>, a: Arrival)
    requires Describes(x, accepted) && Answer(x, a).None?
    ensures Describes(After(x, a), accepted + [a.c])
  {
    var y, more := After(x, a), accepted + [a.c];
    assert a.c in more && forall b :: b in accepted ==> b in more;
  }

  lemma {:induction false} RunDescribes(run: seq<Arrival>)
    ensures Describes(Run(run), Accepted(run))
  {
    hide Describes, After, Answer;
    if run == [] {
      NothingYet();
    } else {
      var before, a := run[..|run| - 1], run[|run| - 1];
      RunDescribes(before);
      if Answer(Run(before), a).None? {
        AfterDescribes(Run(before), Accepted(before), a);
      } else {
        RefusedStays(Run(before), a);
        assert Accepted(before) + [] == Accepted(before);
      }
    }
  }

  lemma NothingYet()
    ensures Describes(Extent(None, 0), [])
  {
  }

  lemma RefusedStays(x: Extent, a: Arrival)
    requires Answer(x, a).Some?
    ensures After(x, a) == x
  {
  }

  /**
   In every run, a chunk is accepted exactly when it stays below the limit in force and agrees with every
   chunk accepted before; the limit is looked at first, and any other refusal is FINAL_SIZE_ERROR.
   */
  lemma AcceptedIff(run: seq<Arrival>, a: Arrival)
    ensures Answer(Run(run), a).None? <==> MaxOff(a.c) <= a.limit && forall b <- Accepted(run) :: Agrees(b, a.c)
    ensures Answer(Run(run), a).Some? ==> Answer(Run(run), a).value == if MaxOff(a.c) > a.limit then FlowLimit else FinalSize
  {
    RunDescribes(run);
    AnswerIff(Run(run), Accepted(run), a);
  }

  /** Once known, the final size never changes, and no later chunk that is accepted goes beyond it. */
  lemma {:induction false} FinalSizeStays(run: seq<Arrival>, more: seq<Arrival>, size: nat)
    requires Run(run).finOff == Some(size)
    ensures Run(run + more).finOff == Some(size) && Run(run + more).len == size
    ensures forall b <- Accepted(run + more) :: (b.fin ==> MaxOff(b) == size) && (b.data != [] ==> MaxOff(b) <= size)
  {
    hide Answer;
    RunDescribes(run + more);
    if more == [] {
      assert run + more == run;
    } else {
      var n := |more| - 1;
      assert (run + more)[..|run| + n] == run + more[..n];
      FinalSizeStays(run, more[..n], size);
    }
  }

  /** Bytes or an end beyond the known size, or an end before it, are refused and leave everything as it was. */
  lemma ContradictionsRefused(run: seq<Arrival>, size: nat, a: Arrival)
    requires Run(run).finOff == Some(size) && (MaxOff(a.c) > size || (a.c.fin && MaxOff(a.c) < size))
    ensures Answer(Run(run), a) == Some(if MaxOff(a.c) > a.limit then FlowLimit else FinalSize)
    ensures Run(run + [a]) == Run(run) && Accepted(run + [a]) == Accepted(run)
  {
    assert (run + [a])[..|run|] == run;
  }

  /** One write to the buffer answers as above and leaves the extent above. */
  method ReceiveOne(b: RecvBuf, c: Chunk) returns (answer: Option<Error>)
    requires b.Valid()
    modifies b`data, b`len, b`finOff
    ensures b.Valid()
    ensures answer == Answer(old(Extent(b.finOff, b.len)), Arrival(b.flow.maxData, c))
    ensures Extent(b.finOff, b.len) == After(old(Extent(b.finOff, b.len)), Arrival(b.flow.maxData, c))
  {
    hide At, Sorted, Merged;
    var r := b.Write(c);
    return match r case Ok(_) => None case Err(e) => Some(e);
  }

  function Answers(run: seq<Arrival>): seq<Option<Error>> {
    if run == [] then []
    else Answers(run[..|run| - 1]) + [Answer(Run(run[..|run| - 1]), run[|run| - 1])]
  }

  /** The buffer itself, through any run of writes: its answers are the ones above. */
  method Receive(b: RecvBuf, cs: seq<Chunk>) returns (answers: seq<Option<Error>>)
    requires b.Valid() && b.finOff == None && b.len == 0
    modifies b`data, b`len, b`finOff
    ensures b.Valid() && answers == Answers(Arrivals(b.flow.maxData, cs))
    ensures Extent(b.finOff, b.len) == Run(Arrivals(b.flow.maxData, cs))
  {
    hide Answer, After, Answers, Run, At, Sorted, Merged;
    answers := [];
    RunStarts(b.flow.maxData);
    for i := 0 to |cs|
      invariant b.Valid() && answers == Answers(Arrivals(b.flow.maxData, cs[..i]))
      invariant Extent(b.finOff, b.len) == Run(Arrivals(b.flow.maxData, cs[..i]))
    {
      RunMore(b.flow.maxData, cs[..i], cs[i]);
      var answer := ReceiveOne(b, cs[i]);
      answers := answers + [answer];
      assert cs[..i] + [cs[i]] == cs[..i + 1];
    }
    assert cs[..|cs|] == cs;
  }

  lemma RunStarts(limit: nat)
    ensures Answers(Arrivals(limit, [])) == [] && Run(Arrivals(limit, [])) == Extent(None, 0)
  {
  }

  lemma RunMore(limit: nat, cs: seq<Chunk>, c: Chunk)
    ensures var run, a := Arrivals(limit, cs), Arrival(limit, c);
            && Run(Arrivals(limit, cs + [c])) == After(Run(run), a)
            && Answers(Arrivals(limit, cs + [c])) == Answers(run) + [Answer(Run(run), a)]
  {
    assert Arrivals(limit, cs + [c])[..|cs|] == Arrivals(limit, cs);
  }

  function Arrivals(limit: nat, cs: seq<Chunk>): (run: seq<Arrival>)
    ensures |run| == |cs| && forall i :: 0 <= i < |cs| ==> run[i] == Arrival(limit, cs[i])
  {
    seq(|cs|, i requires 0 <= i < |cs| => Arrival(limit, cs[i]))
  }
}
