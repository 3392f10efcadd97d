/**
 Byte strings, big-endian integers and variable-length integers (section 16 of RFC 9000), as the
 cursors of octets/src/lib.rs read and write them.
 */
module Varints {
  import opened Common

  // -------------------------------------------------------------------------
  // Big-endian integers
  // -------------------------------------------------------------------------

  function Pow256(n: nat): (p: nat)
    ensures p >= 1
  {
    if n == 0 then 1 else 256 * Pow256(n - 1)
  }

  /** The low `n` bytes of `v`, most significant first; higher bytes are cut off as in `v as u16`. */
  function ToBe(v: nat, n: nat): (s: seq<byte>)
    ensures |s| == n
  {
    if n == 0 then [] else ToBe(v / 256, n - 1) + [v % 256]
  }

  function FromBe(s: seq<byte>): (v: nat)
    ensures v < Pow256(|s|)
  {
    if s == [] then 0 else FromBe(s[..|s| - 1]) * 256 + s[|s| - 1]
  }

  lemma {:induction false} FromToBe(v: nat, n: nat)
    requires v < Pow256(n)
    ensures FromBe(ToBe(v, n)) == v
  {
    if n > 0 {
      FromToBe(v / 256, n - 1);
      assert ToBe(v, n)[..n - 1] == ToBe(v / 256, n - 1);
    }
  }

  lemma {:induction false} FromBeHead(s: seq<byte>)
    requires s != []
    ensures FromBe(s) == s[0] * Pow256(|s| - 1) + FromBe(s[1..])
  {
    var n := |s|;
    if n == 1 {
      assert s[..0] == [] && s[1..] == [];
    } else {
      FromBeHead(s[..n - 1]);
      assert s[..n - 1][1..] == s[1..][..n - 2];
      assert s[1..][n - 2] == s[n - 1];
      Distribute(s[0], Pow256(n - 2), FromBe(s[1..][..n - 2]));
    }
  }

  lemma Distribute(a: nat, p: nat, b: nat)
    ensures (a * p + b) * 256 == a * (256 * p) + b * 256
  {
  }

  // -------------------------------------------------------------------------
  // Variable-length integers
  // -------------------------------------------------------------------------

  /** `varint_len`: how many bytes the shortest encoding takes. */
  function VarintLen(v: nat): (n: nat)
    requires v <= MAX_VARINT
  {
    if v <= 63 then 1 else if v <= 16383 then 2 else if v <= 1_073_741_823 then 4 else 8
  }

  /** `varint_parse_len`: the length announced by the two top bits of the first byte. */
  function ParseLen(first: byte): nat {
    match first / 64
    case 0 => 1
    case 1 => 2
    case 2 => 4
    case _ => 8
  }

  predicate LegalLen(n: nat) {
    n == 1 || n == 2 || n == 4 || n == 8
  }

  /** The smallest value that does not fit in an encoding of `n` bytes. */
  function VarintLimit(n: nat): nat
    requires LegalLen(n)
  {
    match n case 1 => 0x40 case 2 => 0x4000 case 4 => 0x4000_0000 case 8 => 0x4000_0000_0000_0000
  }

  /** The length bits or-ed into the first byte of an encoding of `n` bytes. */
  function Tag(b: byte, n: nat): byte
    requires LegalLen(n)
  {
    match n
    case 1 => b
    case 2 => if (b / 64) % 2 == 1 then b else b + 0x40
    case 4 => if b / 128 == 1 then b else b + 0x80
    case 8 => b % 64 + 0xc0
  }

  /** `put_varint_with_len`: the low bytes of the value with the length bits on top. */
  function VarintBytes(v: nat, n: nat): (s: seq<byte>)
    requires LegalLen(n)
    ensures |s| == n
  {
    var raw := ToBe(v, n);
    [Tag(raw[0], n)] + raw[1..]
  }

  /** The outcome of reading from the front of a byte string. */
  datatype Parsed<+T> = Got(value: T, rest: seq<byte>) | Failed(error: Error) {
    predicate IsFailure() {
      Failed?
    }

    function PropagateFailure<U>(): Parsed<U>
      requires Failed?
    {
      Failed(error)
    }

    function Extract(): (T, seq<byte>)
      requires Got?
    {
      (value, rest)
    }
  }

  /** `get_bytes`. */
  function TakeBytes(s: seq<byte>, n: nat): (r: Parsed<seq<byte>>) {
    if |s| < n then Failed(BufferTooShort) else Got(s[..n], s[n..])
  }

  /** `get_u8`, `get_u16`, `get_u32` and `get_u64`, by width. */
  function TakeUint(s: seq<byte>, n: nat): (r: Parsed<nat>) {
    if |s| < n then Failed(BufferTooShort) else Got(FromBe(s[..n]), s[n..])
  }

  /** `get_varint`. */
  function TakeVarint(s: seq<byte>): (r: Parsed<nat>) {
    if s == [] then Failed(BufferTooShort)
    else
      var n := ParseLen(s[0]);
      if |s| < n then Failed(BufferTooShort) else Got(FromBe(s[..n]) % VarintLimit(n), s[n..])
  }

  lemma PowValues()
    ensures Pow256(0) == 1 && Pow256(1) == 0x100 && Pow256(2) == 0x1_0000 && Pow256(3) == 0x100_0000
    ensures Pow256(4) == 0x1_0000_0000 && Pow256(7) == 0x100_0000_0000_0000 && Pow256(8) == 0x1_0000_0000_0000_0000
  {
    assert Pow256(5) == 256 * Pow256(4) && Pow256(6) == 256 * Pow256(5);
  }

  /** The first byte of a value that fits has its two top bits free. */
  lemma FirstByteFits(v: nat, n: nat)
    requires LegalLen(n) && v < VarintLimit(n)
    ensures ToBe(v, n)[0] < 64
    ensures v == ToBe(v, n)[0] * Pow256(n - 1) + FromBe(ToBe(v, n)[1..])
  {
    PowValues();
    FromToBe(v, n);
    FromBeHead(ToBe(v, n));
  }

  /** The length bits as a number. */
  function LenBits(n: nat): nat
    requires LegalLen(n)
  {
    match n case 1 => 0 case 2 => 1 case 4 => 2 case 8 => 3
  }

  lemma TagAdds(b: byte, n: nat)
    requires LegalLen(n) && b < 64
    ensures Tag(b, n) == b + 64 * LenBits(n) && ParseLen(Tag(b, n)) == n
  {
  }

  lemma LimitIsPower(n: nat)
    requires LegalLen(n)
    ensures VarintLimit(n) == 64 * Pow256(n - 1)
  {
    PowValues();
  }

  lemma MultipleVanishes(v: nat, t: nat, n: nat)
    requires LegalLen(n) && v < VarintLimit(n) && t <= 3
    ensures (v + t * VarintLimit(n)) % VarintLimit(n) == v
  {
    match n {
      case 1 => assert (v + t * 0x40) % 0x40 == v;
      case 2 => assert (v + t * 0x4000) % 0x4000 == v;
      case 4 => assert (v + t * 0x4000_0000) % 0x4000_0000 == v;
      case 8 => assert (v + t * 0x4000_0000_0000_0000) % 0x4000_0000_0000_0000 == v;
    }
  }

  lemma TagShifts(b: nat, t: nat, p: nat, low: nat)
    ensures (b + 64 * t) * p + low == (b * p + low) + t * (64 * p)
  {
    assert (b + 64 * t) * p == b * p + 64 * t * p;
    assert t * (64 * p) == 64 * t * p;
  }

  /** The announced length of a fitting value is its own. */
  lemma TaggedValue(v: nat, n: nat)
    requires LegalLen(n) && v < VarintLimit(n)
    ensures ParseLen(VarintBytes(v, n)[0]) == n
    ensures FromBe(VarintBytes(v, n)) % VarintLimit(n) == v
  {
    var raw, enc := ToBe(v, n), VarintBytes(v, n);
    FirstByteFits(v, n);
    TagAdds(raw[0], n);
    FromBeHead(enc);
    LimitIsPower(n);
    assert enc[1..] == raw[1..];
    TagShifts(raw[0], LenBits(n), Pow256(n - 1), FromBe(raw[1..]));
    MultipleVanishes(v, LenBits(n), n);
  }

  /** A decoded value is below the limit of the length it was read from, so it re-encodes no longer. */
  lemma DecodedIsShort(s: seq<byte>)
    requires TakeVarint(s).Got?
    ensures var r := TakeVarint(s);
            && r.value <= MAX_VARINT && |r.rest| < |s| && VarintLen(r.value) <= |s| - |r.rest|
            && s == s[..|s| - |r.rest|] + r.rest
  {
  }

  /**
   Writing with a legal length and reading back in front of any suffix returns the value and consumes
   that length exactly when the value fits; a longer value is cut off or changes the length bits.
   */
  lemma VarintRoundTripIff(v: nat, n: nat, rest: seq<byte>)
    requires LegalLen(n)
    ensures TakeVarint(VarintBytes(v, n) + rest) == Got(v, rest) <==> v < VarintLimit(n)
  {
    var enc := VarintBytes(v, n);
    assert (enc + rest)[0] == enc[0] && (enc + rest)[..n] == enc && (enc + rest)[n..] == rest;
    if v < VarintLimit(n) {
      TaggedValue(v, n);
    } else if TakeVarint(enc + rest) == Got(v, rest) {
      assert |(enc + rest)[ParseLen(enc[0])..]| == |rest|;
      assert ParseLen(enc[0]) == n;
    }
  }

  /** The shortest encoding always fits. */
  lemma VarintRoundTrip(v: nat, rest: seq<byte>)
    requires v <= MAX_VARINT
    ensures TakeVarint(VarintBytes(v, VarintLen(v)) + rest) == Got(v, rest)
  {
    VarintRoundTripIff(v, VarintLen(v), rest);
  }
}
