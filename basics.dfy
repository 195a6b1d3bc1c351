/**
 * Shared vocabulary of the toolkit model: outcomes of operations that the
 * Java code lets throw, Java's 32-bit `int` arithmetic, and single bits of a
 * 32-bit word.
 */
module Basics {

  datatype Option<T> = None | Some(value: T)

  /** The exceptions the Java code raises, one constructor per kind. */
  datatype Error =
    | IllegalArgument  // IllegalArgumentException (bad ranges, message too big, nextInt(0))
    | IOError          // IOException (empty file, reading past the end, writing after close)
    | NoMessage        // NoMessageException: the decoded length header is implausible
    | NullImage        // NullPointerException from a null image
    | Crash            // any unchecked failure: a null shot, a coordinate out of bounds, System.exit
    | Hang             // a retry loop that would never end: its bound on repetitions ran out

  datatype Result<T> = Success(value: T) | Failure(error: Error)

  const TWO_31: int := 0x8000_0000
  const TWO_32: int := 0x1_0000_0000

  /** Java's `int` wrap-around: the value congruent to x modulo 2^32 in [-2^31, 2^31). */
  function I32(x: int): (r: int)
    ensures -TWO_31 <= r < TWO_31
    ensures (x - r) % TWO_32 == 0
    ensures -TWO_31 <= x < TWO_31 ==> r == x
  {
    var m := x % TWO_32;
    if m >= TWO_31 then m - TWO_32 else m
  }

  /** Bit k (0 = least significant) of a 32-bit word. */
  function BitOf(a: bv32, k: bv32): bool
    requires k < 32
  {
    a & ((1 as bv32) << k) != 0
  }

  function B(bit: bool): bv32 { if bit then 1 else 0 }

  function Pow2(k: nat): (r: nat)
    ensures r >= 1
  {
    if k == 0 then 1 else 2 * Pow2(k - 1)
  }

  /** A value that fits in a byte is its own low byte. */
  lemma {:induction false} LowByte(x: int)
    requires 0 <= x < 256
    ensures x % 256 == x
  {
  }

  function Abs(x: int): (r: nat)
    ensures r == x || r == -x
  {
    if x < 0 then -x else x
  }

  /** A value a Java `int` can hold. */
  predicate IsInt32(x: int)
  {
    -TWO_31 <= x < TWO_31
  }

  /** Java's `Math.abs` on an `int`: the absolute value, except that -2^31 stays -2^31. */
  function JavaAbs(x: int): (r: int)
    requires IsInt32(x)
    ensures x != -TWO_31 ==> r == Abs(x)
    ensures x == -TWO_31 ==> r == x
  {
    I32(Abs(x))
  }

  /** Java's `%` on `int`s: it truncates, so the remainder takes the sign of the dividend. */
  function JavaRem(a: int, b: int): (r: int)
    requires b != 0
    ensures Abs(r) < Abs(b) && Abs(r) <= Abs(a)
    ensures a >= 0 ==> r >= 0
    ensures a <= 0 ==> r <= 0
    ensures (a - r) % Abs(b) == 0
  {
    var m := Abs(a) % Abs(b);
    var q := Abs(a) / Abs(b);
    ModAtMost(Abs(a), Abs(b));
    var r := if a < 0 then -m else m;
    ModOfDecomposition(a - r, Abs(b), if a < 0 then -q else q, 0);
    r
  }

  /** A remainder is no larger than the dividend. */
  lemma {:induction false} ModAtMost(a: nat, d: nat)
    requires d > 0
    ensures a % d <= a
  {
    if a < d {
      assert a == d * 0 + a;
    } else {
      assert a % d < d;
    }
  }

  function Min(a: int, b: int): (r: int)
    ensures r <= a && r <= b && (r == a || r == b)
  {
    if a <= b then a else b
  }

  /** The quotient and remainder of u by m, from any decomposition u = m * k + t with 0 <= t < m. */
  lemma {:induction false} ModOfDecomposition(u: int, m: int, k: int, t: int)
    requires m >= 1 && 0 <= t < m && u == m * k + t
    ensures u % m == t && u / m == k
  {
    var q, r := u / m, u % m;
    assert m * q + r == m * k + t;
    if q > k {
      MulGap(m, k, q);
      assert false;
    } else if q < k {
      MulGap(m, q, k);
      assert false;
    }
  }

  lemma {:induction false} MulGap(m: int, a: int, b: int)
    requires m >= 1 && a < b
    ensures m * a + m <= m * b
    decreases b - a
  {
    if b > a + 1 {
      MulGap(m, a, b - 1);
      assert m * (b - 1) + m == m * b;
    } else {
      assert m * b == m * (a + 1) == m * a + m;
    }
  }
}
