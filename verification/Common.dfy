/** Types shared by every component: bytes, results and the error codes of the QUIC core. */
module Common {

  /** An octet. */
  type byte = b: int | 0 <= b < 256

  const U64_MAX: nat := 0xFFFF_FFFF_FFFF_FFFF
  const USIZE_MAX: nat := 0xFFFF_FFFF_FFFF_FFFF

  /** Largest value a variable-length integer can carry (section 16 of RFC 9000). */
  const MAX_VARINT: nat := 0x3FFF_FFFF_FFFF_FFFF

  datatype Option<+T> = None | Some(value: T)

  /** The error codes the modelled operations can return. */
  datatype Error =
    | BufferTooShort
    | InvalidFrame
    | InvalidPacket
    | CryptoFail
    | IdLimit
    | InvalidState
    | OutOfIdentifiers
    | OutOfPathId
    | PathIdViolation
    | UnavailablePath
    | Done
    | ExcessiveLoad
    | UnknownQos
    | FlowLimit
    | FinalSize

  datatype Result<+T> = Ok(value: T) | Err(error: Error) {
    predicate IsFailure() {
      Err?
    }

    function PropagateFailure<U>(): Result<U>
      requires Err?
    {
      Err(error)
    }

    function Extract(): T
      requires Ok?
    {
      value
    }
  }

  /** A non-empty set of naturals has a least member. */
  lemma LeastExists(s: set<nat>)
    requires s != {}
    ensures exists m :: m in s && forall n :: n in s ==> m <= n
  {
    var x :| x in s;
    LeastFrom(s, x);
  }

  lemma {:induction false} LeastFrom(s: set<nat>, x: nat)
    requires x in s
    ensures exists m :: m in s && forall n :: n in s ==> m <= n
    decreases x
  {
    if y :| y in s && y < x {
      LeastFrom(s, y);
    } else {
      assert forall n :: n in s ==> x <= n;
    }
  }
}
