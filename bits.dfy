/**
 * Sequences of bits and the integers they spell.
 *
 * The toolkit moves data one bit at a time: message bytes are emitted most
 * significant bit first, and the 32-bit length header is written least
 * significant bit first. This module gives the two readings of a bit
 * sequence, the inverse that cuts a number into bits, and the facts the
 * round trips of the codecs rest on.
 */
module Bits {
  import opened Basics

  type Byte = x: int | 0 <= x < 256

  /** The number a bit sequence spells when its first bit is the most significant. */
  function FromMsb(s: seq<bool>): (v: nat)
    ensures v < Pow2(|s|)
  {
    if s == [] then 0 else 2 * FromMsb(s[..|s| - 1]) + (if s[|s| - 1] then 1 else 0)
  }

  /** The number a bit sequence spells when its first bit is the least significant. */
  function FromLsb(s: seq<bool>): (v: nat)
    ensures v < Pow2(|s|)
  {
    if s == [] then 0 else (if s[0] then 1 else 0) + 2 * FromLsb(s[1..])
  }

  /** The n low bits of u, least significant first. */
  function ToLsb(u: nat, n: nat): (s: seq<bool>)
    ensures |s| == n
  {
    if n == 0 then [] else [u % 2 == 1] + ToLsb(u / 2, n - 1)
  }

  function Reverse<T>(s: seq<T>): (r: seq<T>)
    ensures |r| == |s|
    ensures forall i :: 0 <= i < |s| ==> r[i] == s[|s| - 1 - i]
  {
    if s == [] then [] else Reverse(s[1..]) + [s[0]]
  }

  function Zeros(k: nat): (s: seq<bool>)
    ensures |s| == k && forall i :: 0 <= i < k ==> !s[i]
  {
    seq(k, _ => false)
  }

  lemma {:induction false} Pow2Values()
    ensures Pow2(8) == 256 && Pow2(32) == TWO_32
  {
    Pow2Add(8, 8);
    Pow2Add(16, 16);
  }

  lemma {:induction false} Pow2Add(a: nat, b: nat)
    ensures Pow2(a + b) == Pow2(a) * Pow2(b)
  {
    if a > 0 {
      Pow2Add(a - 1, b);
    }
  }

  lemma {:induction false} Pow2Monotone(a: nat, b: nat)
    requires a <= b
    ensures Pow2(a) <= Pow2(b)
    decreases b
  {
    if a < b {
      Pow2Monotone(a, b - 1);
    }
  }

  /** Splitting u as its low bit and the rest, modulo an even power of two. */
  lemma {:induction false} ModDouble(u: nat, p: nat)
    requires p >= 1
    ensures u % 2 + 2 * ((u / 2) % p) == u % (2 * p)
  {
    var q := u / 2;
    var a := q / p;
    var b := q % p;
    assert u == (2 * p) * a + (2 * b + u % 2);
    ModOfDecomposition(u, 2 * p, a, 2 * b + u % 2);
  }

  lemma {:induction false} FromLsbToLsb(u: nat, n: nat)
    ensures FromLsb(ToLsb(u, n)) == u % Pow2(n)
  {
    if n > 0 {
      FromLsbToLsb(u / 2, n - 1);
      assert ToLsb(u, n)[1..] == ToLsb(u / 2, n - 1);
      ModDouble(u, Pow2(n - 1));
    }
  }

  lemma {:induction false} ToLsbFromLsb(s: seq<bool>)
    ensures ToLsb(FromLsb(s), |s|) == s
  {
    if s != [] {
      ToLsbFromLsb(s[1..]);
      var v := FromLsb(s);
      assert v / 2 == FromLsb(s[1..]);
    }
  }

  lemma {:induction false} FromMsbReverse(s: seq<bool>)
    ensures FromMsb(Reverse(s)) == FromLsb(s)
  {
    if s != [] {
      FromMsbReverse(s[1..]);
      var r := Reverse(s);
      assert r[..|r| - 1] == Reverse(s[1..]);
    }
  }

  lemma {:induction false} ReverseReverse<T>(s: seq<T>)
    ensures Reverse(Reverse(s)) == s
  {
  }

  lemma {:induction false} FromLsbReverse(s: seq<bool>)
    ensures FromLsb(Reverse(s)) == FromMsb(s)
  {
    FromMsbReverse(Reverse(s));
    ReverseReverse(s);
  }

  /** Bit j of u, as the division a right shift performs. */
  lemma {:induction false} ToLsbBit(u: nat, n: nat, j: nat)
    requires j < n
    ensures ToLsb(u, n)[j] == ((u / Pow2(j)) % 2 == 1)
  {
    if j > 0 {
      ToLsbBit(u / 2, n - 1, j - 1);
      ModOfDecomposition(u, 2 * Pow2(j - 1), (u / 2) / Pow2(j - 1), 2 * ((u / 2) % Pow2(j - 1)) + u % 2);
    }
  }

  /** Shifting left by k appends k zero bits. */
  lemma {:induction false} FromMsbZeros(s: seq<bool>, k: nat)
    ensures FromMsb(s + Zeros(k)) == FromMsb(s) * Pow2(k)
  {
    if k == 0 {
      assert s + Zeros(k) == s;
    } else {
      FromMsbZeros(s, k - 1);
      var u := s + Zeros(k - 1);
      assert s + Zeros(k) == u + [false];
      FromMsbAppend(u, false);
      Pow2Double(FromMsb(s), k);
    }
  }

  lemma {:induction false} FromMsbAppend(s: seq<bool>, bit: bool)
    ensures FromMsb(s + [bit]) == 2 * FromMsb(s) + (if bit then 1 else 0)
  {
    assert (s + [bit])[..|s|] == s;
  }

  lemma {:induction false} Pow2Double(a: nat, k: nat)
    requires k >= 1
    ensures 2 * (a * Pow2(k - 1)) == a * Pow2(k)
  {
  }

  /** The bits of one byte, most significant first. */
  function ByteBits(b: Byte): (s: seq<bool>)
    ensures |s| == 8
  {
    Reverse(ToLsb(b, 8))
  }

  lemma {:induction false} ByteBitsValue(b: Byte)
    ensures FromMsb(ByteBits(b)) == b
  {
    FromMsbReverse(ToLsb(b, 8));
    FromLsbToLsb(b, 8);
    assert Pow2(8) == 256 by {
      Pow2Values();
    }
    LowByte(b);
  }

  /** The bit stream of a message: every byte, most significant bit first. */
  function MessageBits(data: seq<Byte>): (s: seq<bool>)
    ensures |s| == 8 * |data|
  {
    if data == [] then [] else ByteBits(data[0]) + MessageBits(data[1..])
  }

  lemma {:induction false} MessageBitAt(data: seq<Byte>, i: nat, k: nat)
    requires i < |data| && k < 8
    ensures MessageBits(data)[8 * i + k] == ByteBits(data[i])[k]
  {
    var head := ByteBits(data[0]);
    var tail := MessageBits(data[1..]);
    assert MessageBits(data) == head + tail;
    if i > 0 {
      MessageBitAt(data[1..], i - 1, k);
      assert (head + tail)[8 + (8 * (i - 1) + k)] == tail[8 * (i - 1) + k];
      assert data[1..][i - 1] == data[i];
    }
  }

  /**
   * Groups a bit stream into bytes, most significant bit first; a final group
   * of fewer than eight bits is padded with zero low bits.
   */
  function Pack(bits: seq<bool>): (r: seq<Byte>)
    ensures |r| == (|bits| + 7) / 8
    decreases |bits|
  {
    Pow2Values();
    if |bits| == 0 then []
    else if |bits| < 8 then [FromMsb(bits + Zeros(8 - |bits|))]
    else [FromMsb(bits[..8])] + Pack(bits[8..])
  }

  lemma {:induction false} PackAppend(bits: seq<bool>, tail: seq<bool>)
    requires |bits| % 8 == 0 && 0 < |tail| <= 8
    ensures Pack(bits + tail) == Pack(bits) + Pack(tail)
    decreases |bits|
  {
    if |bits| > 0 {
      var s := bits + tail;
      assert s[..8] == bits[..8];
      assert s[8..] == bits[8..] + tail;
      PackAppend(bits[8..], tail);
    } else {
      assert bits + tail == tail;
    }
  }

  /** Unpacking and packing a whole message give back the same bytes. */
  lemma {:induction false} PackMessage(data: seq<Byte>)
    ensures Pack(MessageBits(data)) == data
  {
    if data != [] {
      var s := MessageBits(data);
      assert s[..8] == ByteBits(data[0]);
      assert s[8..] == MessageBits(data[1..]);
      ByteBitsValue(data[0]);
      PackMessage(data[1..]);
    }
  }

  /** Indexing into the second part of a concatenation, past a suffix's start. */
  lemma {:induction false} ConcatSuffixIndex<T>(a: seq<T>, b: seq<T>, lo: nat, j: nat)
    requires lo + j < |b|
    ensures (a + b[lo..])[|a| + j] == b[lo + j]
  {
  }

  /** Extending a prefix by one element. */
  lemma {:induction false} TakeNext<T>(s: seq<T>, i: nat)
    requires i < |s|
    ensures s[..i] + [s[i]] == s[..i + 1]
  {
  }

  /**
   * Bitwise and of two non-negative numbers (Java's `&` on non-negative
   * `int`s), one bit at a time from the least significant end.
   */
  function And(a: nat, b: nat): (r: nat)
    ensures r <= a && r <= b
  {
    if a == 0 || b == 0 then 0
    else 2 * And(a / 2, b / 2) + (if a % 2 == 1 && b % 2 == 1 then 1 else 0)
  }

  /**
   * Bitwise exclusive or of two non-negative numbers (Java's `^` on
   * non-negative values), one bit at a time from the least significant end.
   */
  function Xor(a: nat, b: nat): nat
  {
    if a == 0 then b
    else if b == 0 then a
    else 2 * Xor(a / 2, b / 2) + (if a % 2 != b % 2 then 1 else 0)
  }

  /** The exclusive or of two k-bit numbers is a k-bit number. */
  lemma {:induction false} XorBelow(a: nat, b: nat, k: nat)
    requires a < Pow2(k) && b < Pow2(k)
    ensures Xor(a, b) < Pow2(k)
  {
    if a != 0 && b != 0 {
      XorBelow(a / 2, b / 2, k - 1);
    }
  }
}
