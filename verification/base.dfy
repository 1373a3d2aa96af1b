/** Shared vocabulary of the server model: optional values, the exception
    classes the C++ code throws, results carrying them, and IPv4 addresses. */
module Base {

  /** A value that may be absent (a null `shared_ptr`, or `string::npos`). */
  datatype Option<+T> = None | Some(value: T)

  /** The exception classes thrown across the core. All of them derive from
      `std::runtime_error` except `InvalidArgument`, which `std::stoi` throws
      and which is a `std::logic_error`. */
  datatype Exception =
    | HttpRequestParseError
    | ConnectionClosed
    | ConnectionError
    | RuntimeError
    | ListenerError
    | InvalidArgument

  /** True of the exceptions a `catch (std::runtime_error&)` handler catches. */
  predicate IsRuntimeError(e: Exception) {
    !e.InvalidArgument?
  }

  /** The outcome of a call that may throw. */
  datatype Result<+T> = Ok(value: T) | Err(error: Exception)

  /** `std::min` on sizes. */
  function Min(a: nat, b: nat): (r: nat)
    ensures r <= a && r <= b && (r == a || r == b)
  {
    if a < b then a else b
  }

  /** An IPv4 address (`struct in_addr`) as its 32 bits in network order,
      most significant bit first: bit 0 is the top bit of the first
      dotted-quad octet. The C++ code only masks and compares addresses, so
      the bit sequence is all it needs. */
  type Addr = bits: seq<bool> | |bits| == 32 witness Repeat(false, 32)

  /** `k` copies of one bit. */
  function Repeat(bit: bool, k: nat): (r: seq<bool>)
    ensures |r| == k && forall i :: 0 <= i < k ==> r[i] == bit
  {
    if k == 0 then [] else Repeat(bit, k - 1) + [bit]
  }

  /** The address `0.0.0.0`, the `{0}` a freshly parsed request carries. */
  const ZERO_ADDR: Addr := Repeat(false, 32)

  /** `width` bits of `n`, most significant first. */
  function BitsOf(n: nat, width: nat): (bits: seq<bool>)
    ensures |bits| == width
  {
    if width == 0 then [] else BitsOf(n / 2, width - 1) + [n % 2 == 1]
  }

  /** The number a bit sequence denotes, most significant bit first. */
  function ValueOf(bits: seq<bool>): nat {
    if bits == [] then 0
    else 2 * ValueOf(bits[..|bits| - 1]) + (if bits[|bits| - 1] then 1 else 0)
  }

  function Pow2(k: nat): (r: nat)
    ensures r >= 1
  {
    if k == 0 then 1 else 2 * Pow2(k - 1)
  }

  /** `BitsOf` loses nothing for numbers that fit the width. */
  lemma {:induction false} BitsRoundTrip(n: nat, width: nat)
    requires n < Pow2(width)
    ensures ValueOf(BitsOf(n, width)) == n
  {
    if width > 0 {
      var bits := BitsOf(n, width);
      assert bits[..|bits| - 1] == BitsOf(n / 2, width - 1);
      BitsRoundTrip(n / 2, width - 1);
    }
  }

  /** The address written `a.b.c.d`. */
  function IPv4(a: nat, b: nat, c: nat, d: nat): Addr
    requires a < 256 && b < 256 && c < 256 && d < 256
  {
    BitsOf(a, 8) + BitsOf(b, 8) + BitsOf(c, 8) + BitsOf(d, 8)
  }
}
