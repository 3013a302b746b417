/** The generators of better_rand.hpp other than `pcg32` (which is the class
    of minimal_pcg32.hpp once more, see MinimalPcg32): `Ran` and `RanQ1`,
    which combine a linear congruential step, xorshifts and a
    multiply-with-carry step, and `xoshiro256ss`, seeded by `splitmix64`.
    Every word is a `uint64_t`, so all arithmetic is modulo 2^64, which
    `bv64` gives. */
module BetterRand {

  /** `x ^= x >> k`. */
  function XorShiftRight(x: bv64, k: bv64): bv64
    requires k < 64
  {
    x ^ (x >> k)
  }

  /** `x ^= x << k`. */
  function XorShiftLeft(x: bv64, k: bv64): bv64
    requires k < 64
  {
    x ^ (x << k)
  }

  // An xorshift keeps a non-zero word non-zero: the highest (for a right
  // shift) or lowest (for a left shift) set bit survives.  One lemma per
  // shift the generators use.
  lemma XorShiftRight17(x: bv64) requires x != 0 ensures XorShiftRight(x, 17) != 0 {}
  lemma XorShiftLeft31(x: bv64) requires x != 0 ensures XorShiftLeft(x, 31) != 0 {}
  lemma XorShiftRight8(x: bv64) requires x != 0 ensures XorShiftRight(x, 8) != 0 {}
  lemma XorShiftRight21(x: bv64) requires x != 0 ensures XorShiftRight(x, 21) != 0 {}
  lemma XorShiftLeft35(x: bv64) requires x != 0 ensures XorShiftLeft(x, 35) != 0 {}
  lemma XorShiftRight4(x: bv64) requires x != 0 ensures XorShiftRight(x, 4) != 0 {}

  /** The constant `_v` starts from in `Ran` and `RanQ1`. */
  const VStart: bv64 := 4101842887655102017

  // ----- Ran -----

  /** The LCG multiplier and increment of `_u` (the `long long` literals
      converted to `uint64_t`). */
  const RanMultiplier: bv64 := 2862933555777941757
  const RanIncrement: bv64 := 7046029254386353087

  /** The multiply-with-carry factor of `_w`. */
  const RanCarryFactor: bv64 := 4294957665

  /** The three words `_u`, `_v`, `_w` of a `Ran`. */
  datatype RanState = RanState(u: bv64, v: bv64, w: bv64)

  /** `_u`: one LCG step. */
  function RanU(u: bv64): bv64 {
    u * RanMultiplier + RanIncrement
  }

  /** `_v`: the xorshift by 17 to the right, 31 to the left, 8 to the
      right. */
  function RanV(v: bv64): bv64 {
    XorShiftRight(XorShiftLeft(XorShiftRight(v, 17), 31), 8)
  }

  /** `_w`: the multiply-with-carry step, the low half times the factor
      plus the high half. */
  function RanW(w: bv64): bv64 {
    RanCarryFactor * (w & 0xFFFF_FFFF) + (w >> 32)
  }

  /** The three words after `operator()`. */
  function RanStep(s: RanState): RanState {
    RanState(RanU(s.u), RanV(s.v), RanW(s.w))
  }

  /** The value `operator()` returns, from the words it has just updated:
      `_u` xorshifted by 21 to the left, 35 to the right and 4 to the left,
      plus `_v`, exclusive-or `_w`. */
  function RanOutput(s: RanState): bv64 {
    var x := XorShiftLeft(XorShiftRight(XorShiftLeft(s.u, 21), 35), 4);
    (x + s.v) ^ s.w
  }

  /** The xorshift of `_v` never reaches the all-zero word, where it would
      stay for ever. */
  lemma RanVNonzero(v: bv64)
    requires v != 0
    ensures RanV(v) != 0
  {
    XorShiftRight17(v);
    XorShiftLeft31(XorShiftRight(v, 17));
    XorShiftRight8(XorShiftLeft(XorShiftRight(v, 17), 31));
  }

  /** The words a `Ran` seeded with `s` holds after its constructor: `_u`
      is `s ^ _v` with `_v` at the constant and `_w` at 1, and after each of
      three steps one word is copied into the next, `_v = _u` and then
      `_w = _v`. */
  function RanSeeded(s: bv64): RanState {
    var a := RanStep(RanState(s ^ VStart, VStart, 1));
    var b := RanStep(a.(v := a.u));
    RanStep(b.(w := b.v))
  }

  /** `Ran`: its three words, updated in place on every call. */
  class Ran {
    var words: RanState

    /** `operator()`: steps every word and returns the output of the new
        words. */
    method Next() returns (r: bv64)
      modifies this
      ensures words == RanStep(old(words))
      ensures r == RanOutput(words)
    {
      words := RanStep(words);
      return RanOutput(words);
    }

    /** `Ran(s)`. */
    constructor(s: bv64)
      ensures words == RanSeeded(s)
    {
      words := RanState(s ^ VStart, VStart, 1);
      new;
      var _ := Next();
      words := words.(v := words.u);
      var _ := Next();
      words := words.(w := words.v);
      var _ := Next();
    }
  }

  // ----- RanQ1 -----

  /** The output multiplier of `RanQ1`. */
  const RanQ1Multiplier: bv64 := 2685821657736338717

  /** `_v`: the xorshift by 21 to the right, 35 to the left, 4 to the
      right. */
  function RanQ1Step(v: bv64): bv64 {
    XorShiftRight(XorShiftLeft(XorShiftRight(v, 21), 35), 4)
  }

  /** The value `operator()` returns from the new `_v`. */
  function RanQ1Output(v: bv64): bv64 {
    v * RanQ1Multiplier
  }

  /** The xorshift of `RanQ1` never reaches the all-zero word. */
  lemma RanQ1StepNonzero(v: bv64)
    requires v != 0
    ensures RanQ1Step(v) != 0
  {
    XorShiftRight21(v);
    XorShiftLeft35(XorShiftRight(v, 21));
    XorShiftRight4(XorShiftLeft(XorShiftRight(v, 21), 35));
  }

  /** `RanQ1`: the one word `_v`, updated in place on every call. */
  class RanQ1 {
    var v: bv64

    /** `operator()`: steps `_v` and returns it multiplied. */
    method Next() returns (r: bv64)
      modifies this
      ensures v == RanQ1Step(old(v))
      ensures r == RanQ1Output(v)
    {
      v := RanQ1Step(v);
      return RanQ1Output(v);
    }

    /** `RanQ1(s)`: `_v` is the constant exclusive-or `s`, and is then
        overwritten by the first output, not by the stepped word. */
    constructor(s: bv64)
      ensures v == RanQ1Output(RanQ1Step(VStart ^ s))
    {
      v := VStart ^ s;
      new;
      v := Next();
    }
  }

  // ----- xoshiro256ss -----

  /** The increment `splitmix64` adds to its seed. */
  const Gamma: bv64 := 0x9e37_79b9_7f4a_7c15

  /** The finaliser of `splitmix64`, applied to the advanced seed. */
  function Mix(z0: bv64): bv64 {
    var z1 := (z0 ^ (z0 >> 30)) * 0xbf58_476d_1ce4_e5b9;
    var z2 := (z1 ^ (z1 >> 27)) * 0x94d0_49bb_1331_11eb;
    z2 ^ (z2 >> 31)
  }

  /** `splitmix64(s)`: advances the seed, which the caller passes by
      reference, by `Gamma` and returns the finalised new seed. */
  method SplitMix64(s: bv64) returns (next: bv64, r: bv64)
    ensures next == s + Gamma
    ensures r == Mix(s + Gamma)
  {
    next := s + Gamma;
    r := Mix(next);
  }

  /** The seed after `n` calls of `splitmix64` from `s`. */
  function SeedAfter(s: bv64, n: nat): bv64 {
    if n == 0 then s else SeedAfter(s, n - 1) + Gamma
  }

  /** Word `i` of the state `seed(s)` leaves: the output of the `i + 1`-th
      call of `splitmix64`. */
  function SeedWord(s: bv64, i: nat): bv64 {
    Mix(SeedAfter(s, i) + Gamma)
  }

  /** `rotl(x, k)`: `(x << k) | (x >> (64 - k))`.  With `k == 0` the right
      shift would be by the full width, which C++ leaves undefined; the
      generator only uses 7 and 45. */
  function Rotl(x: bv64, k: bv64): bv64
    requires 0 < k < 64
  {
    (x << k) | (x >> (64 - k))
  }

  /** For the two amounts the generator uses, `rotl` is the rotation to the
      left. */
  lemma RotlRotates(x: bv64)
    ensures Rotl(x, 7) == x.RotateLeft(7)
    ensures Rotl(x, 45) == x.RotateLeft(45)
  {
  }

  /** The four words `_s[0..3]`. */
  datatype Words = Words(s0: bv64, s1: bv64, s2: bv64, s3: bv64)

  /** The value `operator()` returns, from the words before the update. */
  function XoshiroOutput(w: Words): bv64 {
    Rotl(w.s1 * 5, 7) * 9
  }

  /** The four words after `operator()`: `t = _s[1] << 17`, then in order
      `_s[2] ^= _s[0]`, `_s[3] ^= _s[1]`, `_s[1] ^= _s[2]`, `_s[0] ^= _s[3]`,
      `_s[2] ^= t` and `_s[3] = rotl(_s[3], 45)`. */
  function XoshiroStep(w: Words): Words {
    var t := w.s1 << 17;
    var s2 := w.s2 ^ w.s0;
    var s3 := w.s3 ^ w.s1;
    var s1 := w.s1 ^ s2;
    var s0 := w.s0 ^ s3;
    Words(s0, s1, s2 ^ t, Rotl(s3, 45))
  }

  /** `xoshiro256ss`: four words in a fixed-size array, updated in place. */
  class Xoshiro256ss {
    const s: array<bv64>

    /** The array holds the four words. */
    predicate Valid()
      reads this
    {
      s.Length == 4
    }

    /** The words, in order. */
    function State(): Words
      requires Valid()
      reads this, s
    {
      Words(s[0], s[1], s[2], s[3])
    }

    /** `xoshiro256ss(s)`: runs `seed(s)` on a fresh array. */
    constructor(seed: bv64)
      ensures Valid() && fresh(s)
      ensures forall j :: 0 <= j < 4 ==> s[j] == SeedWord(seed, j)
    {
      s := new bv64[4];
      new;
      Seed(seed);
    }

    /** `seed(s)`: fills the words in order with successive `splitmix64`
        outputs, the running seed advancing by `Gamma` each time. */
    method Seed(seed: bv64)
      requires Valid()
      modifies s
      ensures forall j :: 0 <= j < 4 ==> s[j] == SeedWord(seed, j)
    {
      var running := seed;
      for i := 0 to 4
        invariant running == SeedAfter(seed, i)
        invariant forall j :: 0 <= j < i ==> s[j] == SeedWord(seed, j)
      {
        running := SeedNext(seed, i, running);
      }
    }

    /** One pass of the loop of `seed`: `_s[i] = splitmix64(s)`. */
    method SeedNext(ghost seed: bv64, i: int, running: bv64) returns (next: bv64)
      requires Valid() && 0 <= i < 4 && running == SeedAfter(seed, i)
      requires forall j :: 0 <= j < i ==> s[j] == SeedWord(seed, j)
      modifies s
      ensures next == SeedAfter(seed, i + 1)
      ensures forall j :: 0 <= j <= i ==> s[j] == SeedWord(seed, j)
    {
      var out;
      next, out := SplitMix64(running);
      s[i] := out;
    }

    /** `operator()`: the output of the old words, and the words stepped in
        place. */
    method Next() returns (r: bv64)
      requires Valid()
      modifies s
      ensures r == XoshiroOutput(old(State()))
      ensures State() == XoshiroStep(old(State()))
    {
      var result := XoshiroOutput(State());
      var next := XoshiroStep(State());
      s[0], s[1], s[2], s[3] := next.s0, next.s1, next.s2, next.s3;
      return result;
    }
  }
}
