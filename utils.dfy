/** The helpers of utils.hpp: the action check the environments run when
    asked to validate a step, and the boost-style `hash_combine` the
    environments' state hashes are built from. */
module Utils {
  import opened Wrappers

  /** The `std::invalid_argument` that `check_action` throws: its message
      names the offending action. */
  datatype InvalidArgument<A> = InvalidAction(action: A)

  /** `check_action`: a linear `std::find` of the action among the available
      ones under the action type's `operator==`, which is `same` here;
      returns normally when found and fails with `invalid_argument`
      otherwise.  The environment is not changed: only its available
      actions are read. */
  method CheckAction<A>(available: seq<A>, action: A, same: (A, A) -> bool) returns (r: Result<(), InvalidArgument<A>>)
    ensures r.Success? <==> exists i :: 0 <= i < |available| && same(available[i], action)
    ensures r.Failure? ==> r.error == InvalidAction(action)
  {
    var i := 0;
    while i < |available| && !same(available[i], action)
      invariant 0 <= i <= |available|
      invariant forall j :: 0 <= j < i ==> !same(available[j], action)
    {
      i := i + 1;
    }
    if i == |available| {
      return Failure(InvalidAction(action));
    }
    return Success(());
  }

  /** The `operator==` of an action type whose equality is Dafny's own. */
  function Equal<A(==)>(a: A, b: A): (r: bool)
    ensures r <==> a == b
  {
    a == b
  }

  /** Under Dafny's own equality, the check passes exactly for the listed
      actions. */
  lemma CheckedUnderEquality<A>(available: seq<A>, action: A)
    ensures (exists i :: 0 <= i < |available| && Equal(available[i], action)) <==> action in available
  {
    if action in available {
      var i :| 0 <= i < |available| && available[i] == action;
      assert Equal(available[i], action);
    }
  }

  /** The 64-bit golden-ratio constant of the `size_t` of 8 bytes. */
  const Golden64: bv64 := 0x9e37_79b9_7f4a_7c15
  /** The 32-bit golden-ratio constant of the `size_t` of 4 bytes. */
  const Golden32: bv32 := 0x9e37_79b9

  /** The seed that the 64-bit `hash_combine` leaves: the old seed XOR the
      field hash `h` plus the constant and two shifts of the old seed, all
      modulo 2^64.  `h` is `std::hash<T>{}(val)`, an input here.  Given the
      old seed, the new one determines `h`. */
  function HashCombine64(seed: bv64, h: bv64): (r: bv64)
    ensures Uncombine64(seed, r) == h
  {
    seed ^ (h + Golden64 + (seed << 12) + (seed >> 4))
  }

  /** The field hash that `HashCombine64` mixed into `seed` to give `r`. */
  function Uncombine64(seed: bv64, r: bv64): bv64 {
    (r ^ seed) - Golden64 - (seed << 12) - (seed >> 4)
  }

  /** The 32-bit `hash_combine`: the same mix with the 32-bit constant and
      shifts of 6 and 2, modulo 2^32. */
  function HashCombine32(seed: bv32, h: bv32): (r: bv32)
    ensures Uncombine32(seed, r) == h
  {
    seed ^ (h + Golden32 + (seed << 6) + (seed >> 2))
  }

  /** The field hash that `HashCombine32` mixed into `seed` to give `r`. */
  function Uncombine32(seed: bv32, r: bv32): bv32 {
    (r ^ seed) - Golden32 - (seed << 6) - (seed >> 2)
  }

  /** From the same seed, two different field hashes never combine to the
      same seed. */
  lemma HashCombine64Separates(seed: bv64, h1: bv64, h2: bv64)
    requires h1 != h2
    ensures HashCombine64(seed, h1) != HashCombine64(seed, h2)
  {
    assert Uncombine64(seed, HashCombine64(seed, h1)) == h1;
  }

  /** A run of `hash_combine` calls from `seed` over the field hashes `hs`,
      in order, as the state hashes of the environments do. */
  function HashAll64(seed: bv64, hs: seq<bv64>): bv64
    decreases |hs|
  {
    if hs == [] then seed else HashAll64(HashCombine64(seed, hs[0]), hs[1..])
  }

  /** Field hash lists that differ only in their last entry combine to
      different hashes. */
  lemma {:induction false} HashAll64SeparatesLast(seed: bv64, hs: seq<bv64>, h1: bv64, h2: bv64)
    requires h1 != h2
    ensures HashAll64(seed, hs + [h1]) != HashAll64(seed, hs + [h2])
    decreases |hs|
  {
    if hs == [] {
      assert HashAll64(seed, [h1]) == HashCombine64(seed, h1);
      assert HashAll64(seed, [h2]) == HashCombine64(seed, h2);
      HashCombine64Separates(seed, h1, h2);
    } else {
      assert (hs + [h1])[1..] == hs[1..] + [h1];
      assert (hs + [h2])[1..] == hs[1..] + [h2];
      HashAll64SeparatesLast(HashCombine64(seed, hs[0]), hs[1..], h1, h2);
    }
  }

  /** C++'s `/` on `int`, which truncates toward zero (Dafny's `/` is
      Euclidean). */
  function CDiv(a: int, b: int): (q: int)
    requires b > 0
    ensures a >= 0 ==> q == a / b
  {
    if a >= 0 then a / b else -((-a) / b)
  }

  /** C++'s `%` on `int`: the remainder that goes with `CDiv`, with the sign
      of the dividend. */
  function CRem(a: int, b: int): (r: int)
    requires b > 0
    ensures a == b * CDiv(a, b) + r
    ensures -b < r < b && (a >= 0 ==> 0 <= r) && (a < 0 ==> r <= 0)
  {
    a - b * CDiv(a, b)
  }
}
