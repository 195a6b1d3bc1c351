/**
 * `java.util.Random`, as its API documentation specifies it: a 48-bit linear
 * congruential generator. `next(bits)` advances the state and returns its top
 * `bits` bits; `nextInt(bound)` scales a draw for a power-of-two bound and
 * otherwise rejects the draws that would make small values more likely;
 * `nextBoolean` is one bit.
 */
module JavaRandom {
  import opened Basics
  import opened Bits

  const TWO_48: int := 0x1_0000_0000_0000
  const MULTIPLIER: int := 0x5_DEEC_E66D
  const INCREMENT: int := 0xB

  /**
   * How many rejected draws `nextInt` may make before the model gives up: the
   * generator has no more states than this, so further draws repeat earlier ones.
   */
  const MAX_DRAWS: nat := 0x1_0000_0000_0000

  /** The 48 bits of generator state. */
  type State = s: int | 0 <= s < TWO_48

  /** The outcome of one call: the value returned and the state left behind. */
  datatype Draw = Draw(value: int, state: State)

  /** `new Random(seed)`: `(seed ^ 0x5DEECE66DL) & ((1L << 48) - 1)`. */
  function Scramble(seed: int): State
  {
    Pow2Table();
    XorBelow(seed % TWO_48, MULTIPLIER, 48);
    Xor(seed % TWO_48, MULTIPLIER)
  }

  /** One step of the generator: `(seed * 0x5DEECE66DL + 0xBL) & ((1L << 48) - 1)`. */
  function Step(s: State): State
  {
    (s * MULTIPLIER + INCREMENT) % TWO_48
  }

  /** What `next(bits)` returns from state s: `(int) (Step(s) >>> (48 - bits))`. */
  function TopBits(s: State, bits: int): (r: int)
    requires 1 <= bits <= 32
    ensures bits <= 31 ==> 0 <= r < Pow2(bits)
  {
    TopBitsBound(Step(s), bits);
    I32(Step(s) / Pow2(48 - bits))
  }

  /** The top `bits` bits of a 48-bit number are a `bits`-bit number. */
  lemma {:induction false} TopBitsBound(t: State, bits: int)
    requires 1 <= bits <= 32
    ensures 0 <= t / Pow2(48 - bits) < Pow2(bits)
    ensures bits <= 31 ==> t / Pow2(48 - bits) < TWO_31
  {
    var d := Pow2(48 - bits);
    var c := Pow2(bits);
    Pow2Add(bits, 48 - bits);
    Pow2Table();
    assert c * d == TWO_48;
    MulAboveIffQuotient(t, d, c);
    if bits <= 31 {
      Pow2Monotone(bits, 31);
    }
  }

  /** Java's power-of-two test in `nextInt`: `(bound & (bound - 1)) == 0`. */
  predicate PowerOfTwoTest(bound: int)
    requires 0 < bound < TWO_31
  {
    And(bound, bound - 1) == 0
  }

  /** The rejection test of `nextInt`: `u - u % bound + (bound - 1)` does not overflow an int. */
  predicate Accepts(u: int, bound: int)
    requires 0 < bound
  {
    I32(u - u % bound + (bound - 1)) >= 0
  }

  /**
   * nextInt(bound): a non-positive bound is an IllegalArgumentException and
   * leaves the state alone; otherwise the value lies in [0, bound). A draw that
   * keeps being rejected past `MAX_DRAWS` is reported as `Hang`.
   */
  function NextIntSpec(s: State, bound: int): (r: Result<Draw>)
    requires bound < TWO_31
    ensures bound <= 0 <==> r == Failure(IllegalArgument)
    ensures r.Failure? ==> r.error == IllegalArgument || r.error == Hang
    ensures r.Success? ==> 0 <= r.value.value < bound
  {
    if bound <= 0 then Failure(IllegalArgument)
    else
      var u := TopBits(s, 31);
      Pow2Table();
      if PowerOfTwoTest(bound) then
        ScaledBelow(bound, u);
        Success(Draw(Scale(bound, u), Step(s)))
      else Reject(Step(s), u, bound, MAX_DRAWS)
  }

  /** The rejection loop of `nextInt`, started with the draw u made from state s. */
  function Reject(s: State, u: int, bound: int, fuel: nat): (r: Result<Draw>)
    requires 0 <= u < TWO_31 && 0 < bound < TWO_31
    ensures r.Failure? ==> r.error == Hang
    ensures r.Success? ==> 0 <= r.value.value < bound
    decreases fuel
  {
    if Accepts(u, bound) then Success(Draw(u % bound, s))
    else if fuel == 0 then Failure(Hang)
    else
      Pow2Table();
      Reject(Step(s), TopBits(s, 31), bound, fuel - 1)
  }

  /** The two ways nextInt(bound) goes for a positive bound. */
  lemma {:induction false} NextIntSpecCases(s: State, bound: int)
    requires 0 < bound < TWO_31
    ensures 0 <= TopBits(s, 31) < TWO_31
    ensures NextIntSpec(s, bound) ==
            if PowerOfTwoTest(bound) then Success(Draw(Scale(bound, TopBits(s, 31)), Step(s)))
            else Reject(Step(s), TopBits(s, 31), bound, MAX_DRAWS)
  {
    Pow2Table();
  }

  /** A rejected draw is followed by a fresh one. */
  lemma {:induction false} RejectStep(s: State, u: int, bound: int, fuel: nat)
    requires 0 <= u < TWO_31 && 0 < bound < TWO_31 && !Accepts(u, bound) && fuel > 0
    ensures Reject(s, u, bound, fuel) == Reject(Step(s), TopBits(s, 31), bound, fuel - 1)
  {
    Pow2Table();
  }

  /** nextBoolean: `next(1) != 0`. */
  function NextBooleanSpec(s: State): (r: (bool, State))
    ensures r.1 == Step(s)
    ensures r.0 <==> Step(s) >= TWO_48 / 2
  {
    TopBitMeaning(Step(s));
    (TopBits(s, 1) != 0, Step(s))
  }

  /** The top bit of a state is set exactly in the upper half of the states. */
  lemma {:induction false} TopBitMeaning(t: State)
    ensures I32(t / Pow2(47)) != 0 <==> t >= TWO_48 / 2
  {
    Pow2Table();
    TopBitsBound(t, 1);
    MulAboveIffQuotient(t, Pow2(47), 1);
  }

  /**
   * What the rejection test means: a draw u is kept exactly when it lies below
   * the largest multiple of bound that fits in 31 bits, so each residue is
   * reached by the same number of kept draws.
   */
  lemma {:induction false} AcceptsMeaning(u: int, bound: int)
    requires 0 <= u < TWO_31 && 0 < bound < TWO_31
    ensures Accepts(u, bound) <==> u < (TWO_31 / bound) * bound
  {
    var q := u / bound;
    var big := TWO_31 / bound;
    var sum := u - u % bound + (bound - 1);
    assert u - u % bound == q * bound;
    assert 0 <= q;
    assert q * bound <= u;
    assert 0 <= sum < TWO_32;
    assert sum >= TWO_31 ==> I32(sum) == sum - TWO_32;
    assert Accepts(u, bound) <==> (q + 1) * bound <= TWO_31;
    MulBelowIffQuotient(q + 1, bound, TWO_31);
    MulAboveIffQuotient(u, bound, big);
  }

  /** a * m <= t exactly when a <= t / m. */
  lemma {:induction false} MulBelowIffQuotient(a: int, m: int, t: nat)
    requires 0 <= a && 0 < m
    ensures a * m <= t <==> a <= t / m
  {
    var d := t / m;
    assert d * m <= t < (d + 1) * m;
    if a <= d {
      MonoMul(a, d, m);
    } else {
      MonoMul(d + 1, a, m);
    }
  }

  /** u < c * m exactly when u / m < c. */
  lemma {:induction false} MulAboveIffQuotient(u: nat, m: int, c: int)
    requires 0 < m && 0 <= c
    ensures u / m >= 0
    ensures u < c * m <==> u / m < c
  {
    var q := u / m;
    assert q * m <= u < (q + 1) * m;
    if q < 0 {
      MonoMul(q + 1, 0, m);
    }
    if q < c {
      MonoMul(q + 1, c, m);
    } else {
      MonoMul(c, q, m);
    }
  }

  lemma {:induction false} MonoMul(a: int, b: int, m: int)
    requires a <= b && 0 < m
    ensures a * m <= b * m
  {
  }

  /** The draw of a power-of-two bound: `(int) ((bound * (long) u) >> 31)`. */
  function Scale(bound: int, u: int): int
  {
    (bound * u) / TWO_31
  }

  /** For a power-of-two bound the scaled draw stays below the bound. */
  lemma {:induction false} ScaledBelow(bound: int, u: int)
    requires 0 < bound && 0 <= u < TWO_31
    ensures 0 <= Scale(bound, u) < bound
  {
    MonoMul(u, TWO_31 - 1, bound);
    assert bound * u <= bound * (TWO_31 - 1) < bound * TWO_31;
    MulAboveIffQuotient(bound * u, TWO_31, bound);
  }

  /** The powers of two the generator uses. */
  lemma {:induction false} Pow2Table()
    ensures Pow2(17) == 0x2_0000 && Pow2(31) == TWO_31
    ensures Pow2(47) == TWO_48 / 2 && Pow2(48) == TWO_48
  {
    Pow2Values();
    Pow2Add(16, 32);
  }

  /** A `java.util.Random` object; its only state is the 48-bit seed. */
  class Random {
    var seed: State

    /** `new Random(seed)`. */
    constructor (s: int)
      ensures seed == Scramble(s)
    {
      seed := Scramble(s);
    }

    /** next(bits): one step of the generator and the top `bits` bits of the new state. */
    method Next(bits: int) returns (r: int)
      requires 1 <= bits <= 32
      modifies this
      ensures seed == Step(old(seed)) && r == TopBits(old(seed), bits)
      ensures bits <= 31 ==> 0 <= r < Pow2(bits)
    {
      seed := (seed * MULTIPLIER + INCREMENT) % TWO_48;
      TopBitsBound(seed, bits);
      r := I32(seed / Pow2(48 - bits));
    }

    /** nextInt(bound). */
    method NextInt(bound: int) returns (r: Result<int>)
      requires bound < TWO_31
      modifies this
      ensures r.Success? ==> NextIntSpec(old(seed), bound) == Success(Draw(r.value, seed))
      ensures r.Failure? ==> NextIntSpec(old(seed), bound) == Failure(r.error)
      ensures r == Failure(IllegalArgument) ==> seed == old(seed)
      ensures 0 < bound && r.Failure? ==> r.error == Hang
    {
      if bound <= 0 {
        return Failure(IllegalArgument);
      }
      ghost var s0 := seed;
      var u := Next(31);
      NextIntSpecCases(s0, bound);
      if PowerOfTwoTest(bound) {
        return Success(Scale(bound, u));
      }
      r := Redraw(u, bound);
    }

    /** The rejection loop of nextInt(bound), entered with the first draw u. */
    method Redraw(u0: int, bound: int) returns (r: Result<int>)
      requires 0 <= u0 < TWO_31 && 0 < bound < TWO_31
      modifies this
      ensures r.Success? ==> Reject(old(seed), u0, bound, MAX_DRAWS) == Success(Draw(r.value, seed))
      ensures r.Failure? ==> Reject(old(seed), u0, bound, MAX_DRAWS) == Failure(r.error)
    {
      ghost var s1 := seed;
      var u := u0;
      var draws: nat := 0;
      while !Accepts(u, bound)
        invariant 0 <= u < TWO_31 && draws <= MAX_DRAWS
        invariant Reject(seed, u, bound, MAX_DRAWS - draws) == Reject(s1, u0, bound, MAX_DRAWS)
        decreases MAX_DRAWS - draws
      {
        if draws == MAX_DRAWS {
          return Failure(Hang);
        }
        RejectStep(seed, u, bound, MAX_DRAWS - draws);
        Pow2Table();
        u := Next(31);
        draws := draws + 1;
      }
      return Success(u % bound);
    }

    /** nextBoolean. */
    method NextBoolean() returns (b: bool)
      modifies this
      ensures (b, seed) == NextBooleanSpec(old(seed))
    {
      var r := Next(1);
      b := r != 0;
    }
  }
}
