/** The C scalar types the library exchanges with its callers and with the
    kernel, the conversions Rust's `as` casts and wrapping arithmetic perform
    on them, and a pointer cell for the out-parameters C functions write. */
module CTypes {

  const I32_MIN: int := -0x8000_0000
  const I32_MAX: int := 0x7FFF_FFFF
  const U32_MOD: int := 0x1_0000_0000
  const I64_MIN: int := -0x8000_0000_0000_0000
  const I64_MAX: int := 0x7FFF_FFFF_FFFF_FFFF
  const U64_MOD: int := 0x1_0000_0000_0000_0000
  /** `usize::MAX`, which is also `!0`, the error sentinel of the `e` bridge. */
  const USIZE_MAX: int := U64_MOD - 1

  /** `c_int`, `i32`, `pid_t`, `wchar_t`, `suseconds_t` on the x86_64 Redox target. */
  type Int32 = x: int | I32_MIN <= x <= I32_MAX
  /** `i64`, `time_t`. */
  type Int64 = x: int | I64_MIN <= x <= I64_MAX
  /** `usize`, `u64`, `c_ulong`. */
  type Usize = x: int | 0 <= x <= USIZE_MAX
  /** `u32`, `wint_t`. */
  type UInt32 = x: int | 0 <= x < U32_MOD
  /** `u8`, one byte of a record exchanged with the kernel. */
  type Byte = x: int | 0 <= x < 256

  datatype Option<T> = None | Some(value: T)

  /** A non-null C pointer to one object: the callee reads and writes `val`.
      A nullable pointer parameter is a `Ptr?<T>`. */
  class Ptr<T> {
    var val: T

    constructor (v: T)
      ensures val == v
    {
      val := v;
    }
  }

  /** Two's-complement truncation to 32 bits: the value `x as i32` takes, and
      the value of a wrapping 32-bit `+`, `-` or `*` whose exact result is `x`. */
  function Wrap32(x: int): (r: Int32)
    ensures (x - r) % U32_MOD == 0
    ensures I32_MIN <= x <= I32_MAX ==> r == x
  {
    var m := x % U32_MOD;
    if m <= I32_MAX then m else m - U32_MOD
  }

  /** The value `x as usize` takes for any `x` of a signed or unsigned type of
      at most 64 bits: sign extension, then reinterpretation modulo 2^64. */
  function AsUsize(x: int): (r: Usize)
    ensures (x - r) % U64_MOD == 0
    ensures 0 <= x <= USIZE_MAX ==> r == x
  {
    x % U64_MOD
  }

  /** The value `u as isize` takes: the 64-bit two's-complement reading of `u`. */
  function AsIsize(u: Usize): (r: Int64)
    ensures (u - r) % U64_MOD == 0
  {
    if u <= I64_MAX then u else u - U64_MOD
  }

  /** Converting a signed 64-bit value to `usize` and back loses nothing. */
  lemma {:induction false} IsizeRoundTrip(x: Int64)
    ensures AsIsize(AsUsize(x)) == x
  {
    if x < 0 {
      assert AsUsize(x) == x + U64_MOD;
    }
  }

  /** Rust's `a / 1000` on a signed integer, which truncates toward zero
      (Dafny's `/` is Euclidean and rounds negative quotients down). */
  function Div1000(a: int): (q: int)
    ensures 0 <= a ==> 0 <= q <= a && a - 1000 < q * 1000 <= a
    ensures a < 0 ==> a <= q <= 0 && a <= q * 1000 < a + 1000
  {
    if a >= 0 then a / 1000 else -((-a) / 1000)
  }

  /** The four bytes of a `c_int` in the target's little-endian memory order. */
  function IntBytes(x: Int32): (b: seq<Byte>)
    ensures |b| == 4
  {
    var u := x % U32_MOD;
    [u % 256, (u / 256) % 256, (u / 256 / 256) % 256, u / 256 / 256 / 256]
  }

  /** Reads a `c_int` back from four little-endian bytes. */
  function IntOfBytes(b: seq<Byte>): (x: Int32)
    requires |b| == 4
  {
    Wrap32(b[0] as int + 256 * b[1] as int + 0x1_0000 * b[2] as int + 0x100_0000 * b[3] as int)
  }

  /** Storing a `c_int` in memory and loading it again gives it back. */
  lemma {:induction false} IntBytesRoundTrip(x: Int32)
    ensures IntOfBytes(IntBytes(x)) == x
  {
    var u := x % U32_MOD;
    var b := IntBytes(x);
    var u1, u2 := u / 256, u / 256 / 256;
    assert u == 256 * u1 + b[0] as int;
    assert u1 == 256 * u2 + b[1] as int;
    assert u2 == 256 * b[3] as int + b[2] as int;
    assert u == b[0] as int + 256 * b[1] as int + 0x1_0000 * b[2] as int + 0x100_0000 * b[3] as int;
    assert (u - x) % U32_MOD == 0;
  }
}
