// Types shared by every component of the star tracker model.
module Common {

  /** An unsigned 8-bit value, as stored in the catalog bytestream and the SPI buffer. */
  type byte = x: int | 0 <= x < 256

  /** A unit vector, as the catalog stores it. */
  datatype Vec3 = Vec3(x: real, y: real, z: real)

  datatype Option<T> = None | Some(value: T)

  datatype Result<T, E> = Ok(value: T) | Err(error: E)

  /** `n` empty vote rows: what `calloc` leaves before the first round of either voting variant. */
  function EmptyRows(n: nat): (r: seq<seq<int>>)
    ensures |r| == n && forall x :: 0 <= x < n ==> r[x] == []
  {
    seq(n, _ => [])
  }

  /** Number of occurrences of `x` in `s`, counted from the front. */
  function CountOf(s: seq<int>, x: int): (n: nat)
    ensures n <= |s|
  {
    if s == [] then 0 else CountOf(s[..|s| - 1], x) + (if s[|s| - 1] == x then 1 else 0)
  }

  /** C's conversion of a double to int: truncation toward zero. */
  function TruncToInt(r: real): (n: int)
    ensures r >= 0.0 ==> n as real <= r < n as real + 1.0
    ensures r < 0.0 ==> n as real - 1.0 < r <= n as real
  {
    if r >= 0.0 then r.Floor else -((-r).Floor)
  }

  /**
   * C's integer division on `int`: the quotient is truncated toward zero,
   * so the remainder `a - q * b` takes the sign of the dividend and is
   * smaller than the divisor in magnitude.
   */
  function CDiv(a: int, b: int): (q: int)
    requires b > 0
    ensures a >= 0 ==> 0 <= a - q * b < b
    ensures a < 0 ==> -b < a - q * b <= 0
  {
    if a >= 0 then a / b else -((-a) / b)
  }
}
