/**
 The byte cursors of octets/src/lib.rs: `Octets` reads from a borrowed slice, `OctetsMut` writes into
 a borrowed buffer in place. Every operation either fits and moves the cursor, or changes nothing.
 */
module Cursors {
  import opened Common
  import opened Varints

  /** From `off` on, `bytes` were written over `before`; nothing else changed. */
  ghost predicate Wrote(before: seq<byte>, off: nat, after: seq<byte>, off': nat, bytes: seq<byte>) {
    && |after| == |before|
    && off' == off + |bytes| <= |before|
    && after == before[..off] + bytes + before[off'..]
  }

  /** Two writes in a row are one longer write. */
  lemma WroteTwice(a: seq<byte>, i: nat, b: seq<byte>, j: nat, c: seq<byte>, k: nat, x: seq<byte>, y: seq<byte>)
    requires Wrote(a, i, b, j, x) && Wrote(b, j, c, k, y)
    ensures Wrote(a, i, c, k, x + y)
  {
    assert b[..j] == a[..i] + x;
    assert b[k..] == a[k..];
  }

  class OctetsMut {
    const buf: array<byte>
    var off: nat

    ghost predicate Valid()
      reads this
    {
      off <= buf.Length
    }

    constructor (buf: array<byte>)
      ensures Valid() && this.buf == buf && off == 0
    {
      this.buf := buf;
      off := 0;
    }

    /** Remaining capacity. */
    function Cap(): nat
      requires Valid()
      reads this
    {
      buf.Length - off
    }

    /** Copies `bytes` to the cursor: all of them, or none. */
    method PutBytes(bytes: seq<byte>) returns (r: Result<()>)
      requires Valid()
      modifies this, buf
      ensures Valid()
      ensures r == if old(Cap()) < |bytes| then Err(BufferTooShort) else Ok(())
      ensures r.Ok? ==> Wrote(old(buf[..]), old(off), buf[..], off, bytes)
      ensures r.Err? ==> off == old(off) && buf[..] == old(buf[..])
    {
      if buf.Length - off < |bytes| {
        return Err(BufferTooShort);
      }
      var start := off;
      for i := 0 to |bytes|
        invariant off == start
        invariant forall k :: 0 <= k < i ==> buf[start + k] == bytes[k]
        invariant forall k :: 0 <= k < start || start + i <= k < buf.Length ==> buf[k] == old(buf[k])
      {
        buf[start + i] := bytes[i];
      }
      off := start + |bytes|;
      assert buf[..] == old(buf[..])[..start] + bytes + old(buf[..])[off..];
      return Ok(());
    }

    /** `put_u8`, `put_u16`, `put_u32` and `put_u64`, by width. */
    method PutUint(v: nat, n: nat) returns (r: Result<()>)
      requires Valid()
      modifies this, buf
      ensures Valid()
      ensures r == if old(Cap()) < n then Err(BufferTooShort) else Ok(())
      ensures r.Ok? ==> Wrote(old(buf[..]), old(off), buf[..], off, ToBe(v, n))
      ensures r.Err? ==> off == old(off) && buf[..] == old(buf[..])
    {
      r := PutBytes(ToBe(v, n));
    }

    /** Writes the plain integer first and then sets the length bits in its first byte. */
    method PutVarintWithLen(v: nat, n: nat) returns (r: Result<()>)
      requires Valid() && LegalLen(n)
      modifies this, buf
      ensures Valid()
      ensures r == if old(Cap()) < n then Err(BufferTooShort) else Ok(())
      ensures r.Ok? ==> Wrote(old(buf[..]), old(off), buf[..], off, VarintBytes(v, n))
      ensures r.Err? ==> off == old(off) && buf[..] == old(buf[..])
    {
      var start := off;
      r := PutUint(v, n);
      if r.Ok? {
        assert buf[..][start] == ToBe(v, n)[0];
        buf[start] := Tag(buf[start], n);
        assert buf[..] == old(buf[..])[..start] + VarintBytes(v, n) + old(buf[..])[off..];
      }
    }

    method PutVarint(v: nat) returns (r: Result<()>)
      requires Valid() && v <= MAX_VARINT
      modifies this, buf
      ensures Valid()
      ensures r == if old(Cap()) < VarintLen(v) then Err(BufferTooShort) else Ok(())
      ensures r.Ok? ==> Wrote(old(buf[..]), old(off), buf[..], off, VarintBytes(v, VarintLen(v)))
      ensures r.Err? ==> off == old(off) && buf[..] == old(buf[..])
    {
      r := PutVarintWithLen(v, VarintLen(v));
    }
  }

  class Octets {
    const buf: seq<byte>
    var off: nat

    ghost predicate Valid()
      reads this
    {
      off <= |buf|
    }

    /** What is still to be read. */
    function Rest(): seq<byte>
      requires Valid()
      reads this
    {
      buf[off..]
    }

    constructor (buf: seq<byte>)
      ensures Valid() && this.buf == buf && off == 0 && Rest() == buf
    {
      this.buf := buf;
      off := 0;
    }

    method Cap() returns (n: nat)
      requires Valid()
      ensures n == |Rest()|
    {
      n := |buf| - off;
    }

    method PeekU8() returns (r: Result<byte>)
      requires Valid()
      ensures r == if Rest() == [] then Err(BufferTooShort) else Ok(Rest()[0])
    {
      return if off == |buf| then Err(BufferTooShort) else Ok(buf[off]);
    }

    method GetBytes(n: nat) returns (r: Result<seq<byte>>)
      requires Valid()
      modifies this
      ensures Valid()
      ensures match TakeBytes(old(Rest()), n)
              case Got(v, rest) => r == Ok(v) && Rest() == rest
              case Failed(e) => r == Err(e) && off == old(off)
    {
      if |buf| - off < n {
        return Err(BufferTooShort);
      }
      var out := buf[off..off + n];
      off := off + n;
      assert out == old(Rest())[..n] && Rest() == old(Rest())[n..];
      return Ok(out);
    }

    method GetUint(n: nat) returns (r: Result<nat>)
      requires Valid()
      modifies this
      ensures Valid()
      ensures match TakeUint(old(Rest()), n)
              case Got(v, rest) => r == Ok(v) && Rest() == rest
              case Failed(e) => r == Err(e) && off == old(off)
    {
      var bytes :- GetBytes(n);
      return Ok(FromBe(bytes));
    }

    method GetVarint() returns (r: Result<nat>)
      requires Valid()
      modifies this
      ensures Valid()
      ensures match TakeVarint(old(Rest()))
              case Got(v, rest) => r == Ok(v) && Rest() == rest
              case Failed(e) => r == Err(e) && off == old(off)
    {
      var first :- PeekU8();
      var n := ParseLen(first);
      if n > |buf| - off {
        return Err(BufferTooShort);
      }
      var out := GetUint(n);
      return Ok(out.value % VarintLimit(n));
    }
  }
}
