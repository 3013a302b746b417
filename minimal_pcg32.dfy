/** The `pcg32` generator of minimal_pcg32.hpp (better_rand.hpp defines the
    same class once more): a 64-bit linear congruential state and a 32-bit
    output that rotates a xorshift of the old state by its top five bits.
    Arithmetic is on `uint64_t` and `uint32_t`, so modulo 2^64 and 2^32,
    which `bv64` and `bv32` give. */
module MinimalPcg32 {

  /** The LCG multiplier. */
  const Multiplier: bv64 := 6364136223846793005
  /** The LCG increment. */
  const Increment: bv64 := 1442695040888963407

  /** The `result_type` bounds: `min()` is 0 and `max()` is `~0`. */
  const Min: bv32 := 0
  const Max: bv32 := !0

  /** Every output lies within `min() .. max()`, and `max()` is 2^32 - 1. */
  lemma MinMaxBound(x: bv32)
    ensures Min <= x <= Max
    ensures Max as int == 0xFFFF_FFFF
  {
  }

  /** The state after one step: `state * multiplier + increment` modulo
      2^64. */
  function Advance(state: bv64): bv64 {
    state * Multiplier + Increment
  }

  /** `xorshifted`: `((prev >> 18) ^ prev) >> 27`, truncated to 32 bits. */
  function XorShifted(prev: bv64): bv32 {
    ((((prev >> 18) ^ prev) >> 27) & 0xFFFF_FFFF) as bv32
  }

  /** `rot`: the top five bits of the old state. */
  function Rotation(prev: bv64): (rot: bv32)
    ensures rot < 32
  {
    (prev >> 59) as bv32
  }

  /** `(x >> rot) | (x << ((-rot) & 31))`. */
  function RotateBy(x: bv32, rot: bv32): bv32
    requires rot < 32
  {
    (x >> rot) | (x << ((-rot) & 31))
  }

  /** The output computed from the state before the step. */
  function Output(prev: bv64): bv32 {
    RotateBy(XorShifted(prev), Rotation(prev))
  }

  /** Bit `i` of `x`. */
  function BitOf(x: bv32, i: bv32): bv32
    requires i < 32
  {
    (x >> i) & 1
  }

  /** For a non-zero rotation, the mask gives the left shift that completes
      it. */
  lemma NegatedRotation(rot: bv32)
    requires 0 < rot < 32
    ensures (-rot) & 31 == 32 - rot
  {
  }

  lemma RotateBySplit(x: bv32, rot: bv32, i: bv32)
    requires 0 < rot < 32 && i < 32
    ensures BitOf((x >> rot) | (x << (32 - rot)), i) == BitOf(x, (i + rot) & 31)
  {
  }

  /** `RotateBy` is a rotation to the right, also for `rot == 0` where the
      left shift is by 0 and not by 32: bit `i` of the result is bit
      `(i + rot) mod 32` of `x`. */
  lemma RotateByRotates(x: bv32, rot: bv32, i: bv32)
    requires rot < 32 && i < 32
    ensures BitOf(RotateBy(x, rot), i) == BitOf(x, (i + rot) & 31)
  {
    if rot != 0 {
      NegatedRotation(rot);
      RotateBySplit(x, rot, i);
    }
  }

  /** A 32-bit `int`. */
  predicate Int32(x: int) {
    -0x8000_0000 <= x < 0x8000_0000
  }

  /** `(x * range) >> 32` on `uint64_t`, where `range` is `hi - lo`
      converted to `uint64_t` (so modulo 2^64). */
  function Scaled(x: bv32, span: int): (r: int)
    ensures 0 <= r < 0x1_0000_0000
  {
    var range := span % 0x1_0000_0000_0000_0000;
    (x as int * range) % 0x1_0000_0000_0000_0000 / 0x1_0000_0000
  }

  /** The conversion of a 32-bit unsigned value to `int`, modulo 2^32. */
  function ToInt32(v: int): (r: int)
    requires 0 <= v < 0x1_0000_0000
    ensures Int32(r)
  {
    if v < 0x8000_0000 then v else v - 0x1_0000_0000
  }

  /** Multiplying by a positive factor keeps order. */
  lemma MulMonotone(n: int, m: int, span: int)
    requires 0 <= n <= m && 0 < span
    ensures n * span <= m * span
  {
    assert m * span - n * span == (m - n) * span;
  }

  /** A product with a positive factor is negative only when the other
      factor is. */
  lemma NegativeFactor(x: int, d: int)
    requires 0 < d && x * d < 0
    ensures x < 0
  {
  }

  /** A value below `d * s` divided by `d` is below `s`. */
  lemma DivBelow(a: int, d: int, s: int)
    requires 0 <= a < d * s && 0 < d
    ensures a / d < s
  {
    var q := a / d;
    assert d * q <= a;
    NegativeFactor(q - s, d);
  }

  /** A positive span below 2^31 is scaled into `0 .. span - 1`. */
  lemma ScaledBelowSpan(x: bv32, span: int)
    requires 0 < span < 0x8000_0000
    ensures 0 <= Scaled(x, span) < span
  {
    var n := x as int;
    assert span % 0x1_0000_0000_0000_0000 == span;
    MulMonotone(n, 0xFFFF_FFFF, span);
    MulMonotone(span, 0x8000_0000, 0xFFFF_FFFF);
    assert n * span < 0x1_0000_0000_0000_0000;
    assert (n * span) % 0x1_0000_0000_0000_0000 == n * span;
    DivBelow(n * span, 0x1_0000_0000, span);
  }

  /** `randint(hi, lo)` for an output `x`: `lo + (int)((x * range) >> 32)`. */
  function RandIntOf(x: bv32, hi: int, lo: int): (r: int)
    requires Int32(hi) && Int32(lo) && Int32(hi - lo)
    ensures lo < hi ==> lo <= r < hi
  {
    var span := hi - lo;
    if lo < hi then ScaledBelowSpan(x, span); lo + ToInt32(Scaled(x, span))
    else lo + ToInt32(Scaled(x, span))
  }

  /** The generator; its one field is the 64-bit state. */
  class Pcg32 {
    var state: bv64

    /** `pcg32(s)`: seeds with `s`. */
    constructor(s: bv64)
      ensures state == Advance(s)
    {
      state := Advance(s);
    }

    /** `seed(s)`: sets the state to `s` and steps once, dropping the
        output. */
    method Seed(s: bv64)
      modifies this
      ensures state == s * Multiplier + Increment
    {
      state := s;
      var _ := Next();
    }

    /** `operator()`: one LCG step, returning the output of the old state. */
    method Next() returns (r: bv32)
      modifies this
      ensures state == Advance(old(state)) && r == Output(old(state))
    {
      var oldState := state;
      state := Advance(state);
      var xorShifted := XorShifted(oldState);
      var rot := Rotation(oldState);
      return RotateBy(xorShifted, rot);
    }

    /** `randint(hi, lo)`: one output scaled into `lo .. hi - 1`.  The
        subtraction `hi - lo` is on `int` and must not overflow. */
    method RandInt(hi: int, lo: int) returns (r: int)
      requires Int32(hi) && Int32(lo) && Int32(hi - lo)
      modifies this
      ensures state == Advance(old(state))
      ensures r == RandIntOf(Output(old(state)), hi, lo)
      ensures lo < hi ==> lo <= r < hi
    {
      var x := Next();
      r := RandIntOf(x, hi, lo);
    }
  }
}
