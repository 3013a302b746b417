/** Element-wise arithmetic on fixed-length reward vectors
    (array_operations.hpp).  A `std::array<double, n>` is a value, so the
    binary operators take and return `seq<real>`; only `+=` updates its left
    operand in place, which is an `array<real>` here. */
module ArrayOperations {

  /** The all-zero vector of length `n` (`Reward{0}`). */
  function Zero(n: nat): (z: seq<real>)
    ensures |z| == n && forall i :: 0 <= i < n ==> z[i] == 0.0
  {
    seq(n, i => 0.0)
  }

  /** Element-wise sum, the meaning of `l + r`. */
  function Plus(l: seq<real>, r: seq<real>): seq<real>
    requires |l| == |r|
  {
    seq(|l|, i requires 0 <= i < |l| => l[i] + r[i])
  }

  /** Element-wise difference, the meaning of `l - r`. */
  function Minus(l: seq<real>, r: seq<real>): seq<real>
    requires |l| == |r|
  {
    seq(|l|, i requires 0 <= i < |l| => l[i] - r[i])
  }

  /** Scalar product, the meaning of `s * r`. */
  function Scale(s: real, r: seq<real>): seq<real> {
    seq(|r|, i requires 0 <= i < |r| => s * r[i])
  }

  /** `operator+`: fills a fresh result with `l[i] + r[i]`. */
  method Add(l: seq<real>, r: seq<real>) returns (result: seq<real>)
    requires |l| == |r|
    ensures |result| == |l|
    ensures forall i :: 0 <= i < |l| ==> result[i] == l[i] + r[i]
    ensures result == Plus(l, r)
  {
    result := [];
    for i := 0 to |l|
      invariant |result| == i
      invariant forall j :: 0 <= j < i ==> result[j] == l[j] + r[j]
    {
      result := result + [l[i] + r[i]];
    }
  }

  /** `operator-`: fills a fresh result with `l[i] - r[i]`. */
  method Subtract(l: seq<real>, r: seq<real>) returns (result: seq<real>)
    requires |l| == |r|
    ensures |result| == |l|
    ensures forall i :: 0 <= i < |l| ==> result[i] == l[i] - r[i]
    ensures result == Minus(l, r)
  {
    result := [];
    for i := 0 to |l|
      invariant |result| == i
      invariant forall j :: 0 <= j < i ==> result[j] == l[j] - r[j]
    {
      result := result + [l[i] - r[i]];
    }
  }

  /** `operator*` with a scalar on the left. */
  method Multiply(s: real, r: seq<real>) returns (result: seq<real>)
    ensures |result| == |r|
    ensures forall i :: 0 <= i < |r| ==> result[i] == s * r[i]
    ensures result == Scale(s, r)
  {
    result := [];
    for i := 0 to |r|
      invariant |result| == i
      invariant forall j :: 0 <= j < i ==> result[j] == s * r[j]
    {
      result := result + [s * r[i]];
    }
    assert forall i :: 0 <= i < |r| ==> Scale(s, r)[i] == s * r[i];
  }

  /** `operator+=`: adds `r` into `l` in place; `r` is untouched. */
  method AddAssign(l: array<real>, r: seq<real>)
    requires l.Length == |r|
    modifies l
    ensures l[..] == Plus(old(l[..]), r)
  {
    for i := 0 to l.Length
      invariant forall j :: 0 <= j < i ==> l[j] == old(l[j]) + r[j]
      invariant forall j :: i <= j < l.Length ==> l[j] == old(l[j])
    {
      l[i] := l[i] + r[i];
    }
  }

  /** Adding the zero vector changes nothing, so a return folded onto
      `Reward{0}` starts from its first reward. */
  lemma PlusZero(r: seq<real>)
    ensures Plus(r, Zero(|r|)) == r
  {
  }
}
