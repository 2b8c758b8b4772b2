/** Shared vocabulary: optional values, results with an error side, the
    panics of the modelled code, and natural-number powers. */
module Common {

  const Pow2To32: nat := 0x1_0000_0000
  const Pow2To64: nat := 0x1_0000_0000_0000_0000

  /** A `u8`. */
  type Byte = b: int | 0 <= b < 256

  /** Rust's `Option`. */
  datatype Option<+T> = None | Some(value: T)

  /** A value or an error; usable with Dafny's `:-` operator. */
  datatype Result<+T, +E> = Success(value: T) | Failure(error: E) {

    predicate IsFailure() {
      Failure?
    }

    function PropagateFailure<U>(): Result<U, E>
      requires Failure?
    {
      Failure(error)
    }

    function Extract(): T
      requires Success?
    {
      value
    }
  }

  /** Why a Rust function panicked. Integer arithmetic follows debug builds,
      where an overflowing `+`, `-`, `*`, `pow` or shift panics. */
  datatype Panic =
    | ArithmeticOverflow
    | IndexOutOfBounds
    | Unsupported(message: string)

  /** Rust's `std::io::Error` kinds that the modelled readers can produce. */
  datatype IoError = UnexpectedEof

  function Pow(base: nat, exp: nat): nat {
    if exp == 0 then 1 else base * Pow(base, exp - 1)
  }

  lemma {:induction false} PowPositive(base: nat, exp: nat)
    requires base > 0
    ensures Pow(base, exp) > 0
  {
    if exp > 0 {
      PowPositive(base, exp - 1);
    }
  }

  lemma {:induction false} PowMonotonic(base: nat, e1: nat, e2: nat)
    requires base > 0
    requires e1 <= e2
    ensures Pow(base, e1) <= Pow(base, e2)
    decreases e2
  {
    if e1 < e2 {
      PowMonotonic(base, e1, e2 - 1);
      ScaleUp(base, Pow(base, e2 - 1));
    }
  }

  lemma ScaleUp(k: nat, n: nat)
    requires k > 0
    ensures n <= k * n
  {
  }
}
