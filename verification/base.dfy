/** Shared vocabulary of the model: bytes, fixed-width integers, the error
    values `std::io::Error` can carry, and the outcome of a call that may
    return or panic. */
module Base {

  /** One byte of a Rust `String`/`&str` or a C `char` array. Modelled as a
      `char` whose code is below 256, so that ASCII literals such as
      "cpu MHz" are byte strings and `|s|` is Rust's `len()`. */
  type Byte = c: char | c as int < 0x100 witness '\0'

  type Bytes = seq<Byte>

  const NUL: Byte := '\0'
  const NEWLINE: Byte := '\n'
  const CR: Byte := '\r'

  const U32_LIMIT: int := 0x1_0000_0000
  const U64_LIMIT: int := 0x1_0000_0000_0000_0000
  const I64_MIN: int := -0x8000_0000_0000_0000
  const I64_LIMIT: int := 0x8000_0000_0000_0000

  type u32 = x: int | 0 <= x < U32_LIMIT
  type u64 = x: int | 0 <= x < U64_LIMIT
  type i64 = x: int | I64_MIN <= x < I64_LIMIT

  /** `std::io::ErrorKind` values this layer produces. */
  datatype ErrorKind = Other | InvalidInput

  /** `std::io::Error`: either an OS error code read from `errno`
      (`Error::last_os_error()`), or a kind with a message (`Error::new`). */
  datatype IoError =
    | Os(code: int)
    | Custom(kind: ErrorKind, message: string)

  datatype Option<+T> = None | Some(value: T)

  datatype Result<+T> = Ok(value: T) | Err(error: IoError)

  /** The reply of one `sysctl` call: its return status, the `errno` it
      leaves behind, and what it wrote into the output buffer. */
  datatype Sysctl<+T> = Sysctl(status: int, errno: int, value: T)

  /** What a call does: it returns a `Result`, or it panics. */
  datatype Run<+T> = Returned(result: Result<T>) | Panicked(message: string)
  {
    predicate IsOk() { Returned? && result.Ok? }
    predicate IsErr() { Returned? && result.Err? }
  }

  /** The message `Result::unwrap` panics with. */
  const UNWRAP_ERR: string := "called `Result::unwrap()` on an `Err` value"

  /** Whether arithmetic overflow panics (Rust's debug profile, overflow
      checks on) or wraps (release profile). */
  datatype Profile = Checked | Wrapping

  const OVERFLOW_MUL: string := "attempt to multiply with overflow"
  const OVERFLOW_ADD: string := "attempt to add with overflow"

  /** `a * b` on `u64`. */
  function MulU64(profile: Profile, a: u64, b: u64): (r: Run<u64>)
    ensures a * b < U64_LIMIT ==> r == Returned(Ok(a * b))
    ensures a * b >= U64_LIMIT && profile == Checked ==> r.Panicked?
    ensures profile == Wrapping ==> r.Returned? && r.result.Ok? && r.result.value == (a * b) % U64_LIMIT
    ensures r.Returned? ==> r.result.Ok?
  {
    if a * b < U64_LIMIT then Returned(Ok(a * b))
    else if profile == Checked then Panicked(OVERFLOW_MUL)
    else Returned(Ok((a * b) % U64_LIMIT))
  }

  /** `a + b` on `u32`. */
  function AddU32(profile: Profile, a: u32, b: u32): (r: Run<u32>)
    ensures a + b < U32_LIMIT ==> r == Returned(Ok(a + b))
    ensures a + b >= U32_LIMIT && profile == Checked ==> r.Panicked?
    ensures profile == Wrapping ==> r.Returned? && r.result.Ok? && r.result.value == (a + b) % U32_LIMIT
    ensures r.Returned? ==> r.result.Ok?
  {
    if a + b < U32_LIMIT then Returned(Ok(a + b))
    else if profile == Checked then Panicked(OVERFLOW_ADD)
    else Returned(Ok(a + b - U32_LIMIT))
  }

  /** `x as u64` for a signed 64-bit `x`: two's-complement reinterpretation,
      never a panic. */
  function I64AsU64(x: i64): (r: u64)
    ensures 0 <= x ==> r == x
    ensures x < 0 ==> r == x + U64_LIMIT
  {
    if x < 0 then x + U64_LIMIT else x
  }
}
