/** The truncated Ramanujan nested radical
      f(n) = sqrt(1 + 2 * sqrt(1 + 3 * sqrt(1 + ... + n * 1)))
    computed top-down by recursion (function_recursive / inner_function) and
    bottom-up by a loop (function_iterative), as program.py does.

    Values are `real`. The square root is the library call math.sqrt, which is
    not part of this model: every member takes it as a parameter `sqrt`. The
    equivalence of the two evaluations holds for EVERY such function; the
    bounds and concrete values are proved under named hypotheses on `sqrt`.
 */
module Ramanujan {

  datatype Option<T> = None | Some(value: T)

  // ---------------------------------------------------------------------------
  // Hypotheses on the square root
  // ---------------------------------------------------------------------------

  /** The only fact about the square root that the lower bounds need. */
  ghost predicate PreservesAtLeastOne(sqrt: real -> real) {
    forall x: real :: x >= 1.0 ==> sqrt(x) >= 1.0
  }

  /** `sqrt` is the exact (non-negative) square root on the non-negative reals. */
  ghost predicate IsExactSqrt(sqrt: real -> real) {
    forall x: real :: x >= 0.0 ==> sqrt(x) >= 0.0 && sqrt(x) * sqrt(x) == x
  }

  /** Scaling by a positive factor keeps a strict order. */
  lemma ScaleStrict(m: real, a: real, b: real)
    requires m > 0.0 && a < b
    ensures m * a < m * b
  {
  }

  /** Squaring is strictly increasing on the non-negative reals. */
  lemma SquareStrictlyIncreasing(a: real, b: real)
    requires 0.0 <= a < b
    ensures a * a < b * b
  {
    ScaleStrict(b - a, 0.0, b + a);
    assert b * b - a * a == (b - a) * (b + a);
  }

  /** The exact square root meets the lower-bound hypothesis. */
  lemma ExactSqrtPreservesAtLeastOne(sqrt: real -> real)
    requires IsExactSqrt(sqrt)
    ensures PreservesAtLeastOne(sqrt)
  {
    forall x: real | x >= 1.0
      ensures sqrt(x) >= 1.0
    {
      var y := sqrt(x);
      assert y >= 0.0 && y * y == x;
      if y < 1.0 {
        SquareStrictlyIncreasing(y, 1.0);
        assert false;
      }
    }
  }

  /** The exact square root is strictly increasing. */
  lemma ExactSqrtStrictlyIncreasing(sqrt: real -> real, a: real, b: real)
    requires IsExactSqrt(sqrt)
    requires 0.0 <= a < b
    ensures sqrt(a) < sqrt(b)
  {
  }

  /** The exact square root of a square is the non-negative base. */
  lemma ExactSqrtOfSquare(sqrt: real -> real, y: real)
    requires IsExactSqrt(sqrt)
    requires y >= 0.0
    ensures sqrt(y * y) == y
  {
    var z := sqrt(y * y);
    assert z >= 0.0 && z * z == y * y;
    if z < y {
      SquareStrictlyIncreasing(z, y);
      assert false;
    } else if y < z {
      SquareStrictlyIncreasing(y, z);
      assert false;
    }
  }

  /** Below a square means the exact root is below its base. */
  lemma ExactSqrtBelow(sqrt: real -> real, x: real, y: real)
    requires IsExactSqrt(sqrt)
    requires 0.0 <= x < y * y && y >= 0.0
    ensures sqrt(x) < y
  {
  }

  // ---------------------------------------------------------------------------
  // Recursive evaluation (function_recursive and its inner_function)
  // ---------------------------------------------------------------------------

  /** The number under one square root: 1 + multiplier * (the level below). */
  function Radicand(multiplier: int, deeper: real): real {
    1.0 + multiplier as real * deeper
  }

  /** inner_function(k, n): level k of the radical truncated at level n, where
      level n is 1.0 and level k < n is sqrt(1 + (k + 1) * level(k + 1)).
      The source terminates only when started at or below its bound, hence
      `k <= n` (see InnerCall for what happens otherwise).
      From a non-negative level, and with a square root that keeps values of
      at least 1 there, every level is at least 1. */
  function InnerFunction(sqrt: real -> real, k: int, n: int): (r: real)
    requires k <= n
    ensures 0 <= k && PreservesAtLeastOne(sqrt) ==> r >= 1.0
    decreases n - k
  {
    if k == n then
      1.0
    else
      var deeper := InnerFunction(sqrt, k + 1, n);
      assert 0 <= k && deeper >= 1.0 ==> Radicand(k + 1, deeper) >= 1.0 + deeper;
      sqrt(Radicand(k + 1, deeper))
  }

  /** function_recursive(n) = inner_function(1, n); the depth must be at least 1.
      With no square root taken at depth 1 the result is exactly 1.0. */
  function FunctionRecursive(sqrt: real -> real, n: int): (r: real)
    requires n >= 1
    ensures n == 1 ==> r == 1.0
    ensures PreservesAtLeastOne(sqrt) ==> r >= 1.0
  {
    InnerFunction(sqrt, 1, n)
  }

  /** The arguments handed to sqrt while evaluating inner_function(k, n), in the
      order the calls happen: the deepest level's square root is taken first. */
  function Radicands(sqrt: real -> real, k: int, n: int): (trace: seq<real>)
    requires k <= n
    ensures |trace| == n - k
    decreases n - k
  {
    if k == n then
      []
    else
      Radicands(sqrt, k + 1, n) + [Radicand(k + 1, InnerFunction(sqrt, k + 1, n))]
  }

  /** With a square root that keeps values of at least 1, starting from a
      non-negative level, every argument handed to sqrt is at least 2: the
      square root is never applied to a negative number. */
  lemma {:induction false} RadicandsAtLeastTwo(sqrt: real -> real, k: int, n: int)
    requires 0 <= k <= n
    requires PreservesAtLeastOne(sqrt)
    ensures forall i :: 0 <= i < |Radicands(sqrt, k, n)| ==> Radicands(sqrt, k, n)[i] >= 2.0
    decreases n - k
  {
    if k < n {
      RadicandsAtLeastTwo(sqrt, k + 1, n);
      var v := InnerFunction(sqrt, k + 1, n);
      assert Radicand(k + 1, v) >= 1.0 + v;
    }
  }

  // ---------------------------------------------------------------------------
  // Iterative evaluation (function_iterative)
  // ---------------------------------------------------------------------------

  /** function_iterative(n): start from 1.0 and, for number = n, n - 1, ..., 2,
      replace value by sqrt(value * number + 1). The ghost `radicands` records
      the argument of every sqrt call, in order.
      For n >= 1 it computes exactly what the recursive version computes, by
      taking the same square roots of the same arguments in the same order
      (n - 1 of them); for n <= 1 the loop is empty and the result is 1.0. */
  method FunctionIterative(sqrt: real -> real, n: int) returns (value: real, ghost radicands: seq<real>)
    ensures n >= 1 ==> value == FunctionRecursive(sqrt, n)
    ensures n >= 1 ==> radicands == Radicands(sqrt, 1, n)
    ensures n <= 1 ==> value == 1.0 && radicands == []
    ensures |radicands| == if n >= 1 then n - 1 else 0
    ensures PreservesAtLeastOne(sqrt) ==> value >= 1.0
  {
    value := 1.0;
    radicands := [];
    var number := n;
    while number > 1
      invariant n <= 1 ==> number == n && value == 1.0 && radicands == []
      invariant n >= 1 ==> 1 <= number <= n
      invariant n >= 1 ==> value == InnerFunction(sqrt, number, n)
      invariant n >= 1 ==> radicands == Radicands(sqrt, number, n)
    {
      var arg := value * number as real + 1.0;
      assert arg == Radicand(number, value);
      radicands := radicands + [arg];
      value := sqrt(arg);
      number := number - 1;
    }
  }

  // ---------------------------------------------------------------------------
  // Python's call behaviour: a bounded number of stack frames
  // ---------------------------------------------------------------------------

  /** inner_function(k, n) as Python runs it, with `frames` stack frames left
      before the interpreter gives up (RecursionError, modelled as None). Unlike
      InnerFunction it accepts every pair (k, n). A value comes back only when
      the call started at or below its bound and had more than n - k frames. */
  function InnerCall(sqrt: real -> real, k: int, n: int, frames: nat): (r: Option<real>)
    ensures r.Some? ==> k <= n < k + frames
    decreases frames
  {
    if frames == 0 then
      None
    else if k == n then
      Some(1.0)
    else
      match InnerCall(sqrt, k + 1, n, frames - 1)
      case None => None
      case Some(deeper) => Some(sqrt(Radicand(k + 1, deeper)))
  }

  /** Started at or below its bound, the call returns InnerFunction's value as
      soon as it may use the n - k + 1 frames it needs, and fails with fewer. */
  lemma {:induction false} InnerCallBelowBound(sqrt: real -> real, k: int, n: int, frames: nat)
    requires k <= n
    ensures InnerCall(sqrt, k, n, frames) ==
            if frames > n - k then Some(InnerFunction(sqrt, k, n)) else None
    decreases n - k
  {
    if frames > 0 && k < n {
      InnerCallBelowBound(sqrt, k + 1, n, frames - 1);
      if frames > n - k {
        var deeper := InnerFunction(sqrt, k + 1, n);
        assert InnerCall(sqrt, k + 1, n, frames - 1) == Some(deeper);
        assert InnerFunction(sqrt, k, n) == sqrt(Radicand(k + 1, deeper));
      }
    }
  }

  /** Started above its bound, the call never reaches `k == n` and fails
      however many frames it is given (a consequence of InnerCall's contract). */
  lemma InnerCallAboveBound(sqrt: real -> real, k: int, n: int, frames: nat)
    requires k > n
    ensures InnerCall(sqrt, k, n, frames) == None
  {
  }

  /** function_recursive(n) as Python runs it returns a value iff n >= 1 (and
      enough frames are available); that value is FunctionRecursive(n). This is
      why FunctionRecursive requires n >= 1. */
  lemma RecursiveCallReturnsIff(sqrt: real -> real, n: int, frames: nat)
    ensures InnerCall(sqrt, 1, n, frames).Some? <==> n >= 1 && frames >= n
    ensures n >= 1 && frames >= n ==> InnerCall(sqrt, 1, n, frames) == Some(FunctionRecursive(sqrt, n))
  {
    if n >= 1 {
      InnerCallBelowBound(sqrt, 1, n, frames);
    } else {
      InnerCallAboveBound(sqrt, 1, n, frames);
    }
  }

  // ---------------------------------------------------------------------------
  // Properties of the exact value
  // ---------------------------------------------------------------------------

  /** The arithmetic step of the upper bound: a level below m + 2 makes the
      radicand 1 + m * level fall below (m + 1) * (m + 1). */
  lemma RadicandBelowSquare(m: int, level: real)
    requires m >= 1 && 1.0 <= level < (m + 2) as real
    ensures 0.0 <= Radicand(m, level) < (m + 1) as real * (m + 1) as real
  {
  }

  /** The radicand grows strictly with the level below it. */
  lemma RadicandStrictlyIncreasing(m: int, lower: real, higher: real)
    requires m >= 1 && 1.0 <= lower < higher
    ensures 0.0 <= Radicand(m, lower) < Radicand(m, higher)
  {
  }

  /** With the exact square root, level k is strictly below k + 2
      (because 1 + (k + 1) * (k + 3) == (k + 2) * (k + 2)). */
  lemma {:induction false} InnerBelowLevelPlusTwo(sqrt: real -> real, k: int, n: int)
    requires IsExactSqrt(sqrt)
    requires 0 <= k <= n
    ensures InnerFunction(sqrt, k, n) < (k + 2) as real
    decreases n - k
  {
    if k < n {
      InnerBelowLevelPlusTwo(sqrt, k + 1, n);
      ExactSqrtPreservesAtLeastOne(sqrt);
      var deeper := InnerFunction(sqrt, k + 1, n);
      RadicandBelowSquare(k + 1, deeper);
      ExactSqrtBelow(sqrt, Radicand(k + 1, deeper), (k + 2) as real);
    }
  }

  /** With the exact square root every truncation lies in [1, 3). */
  lemma ExactValueBetweenOneAndThree(sqrt: real -> real, n: int)
    requires IsExactSqrt(sqrt)
    requires n >= 1
    ensures 1.0 <= FunctionRecursive(sqrt, n) < 3.0
  {
    ExactSqrtPreservesAtLeastOne(sqrt);
    InnerBelowLevelPlusTwo(sqrt, 1, n);
  }

  /** With the exact square root, truncating one level deeper strictly
      increases every level. */
  lemma {:induction false} InnerIncreasesWithDepth(sqrt: real -> real, k: int, n: int)
    requires IsExactSqrt(sqrt)
    requires 0 <= k <= n
    ensures InnerFunction(sqrt, k, n) < InnerFunction(sqrt, k, n + 1)
    decreases n - k
  {
    ExactSqrtPreservesAtLeastOne(sqrt);
    if k == n {
      ExactSqrtOfSquare(sqrt, 1.0);
      ExactSqrtStrictlyIncreasing(sqrt, 1.0, Radicand(k + 1, 1.0));
    } else {
      InnerIncreasesWithDepth(sqrt, k + 1, n);
      var shallow, deep := InnerFunction(sqrt, k + 1, n), InnerFunction(sqrt, k + 1, n + 1);
      RadicandStrictlyIncreasing(k + 1, shallow, deep);
      ExactSqrtStrictlyIncreasing(sqrt, Radicand(k + 1, shallow), Radicand(k + 1, deep));
    }
  }

  /** With the exact square root, f(n) < f(n + 1). */
  lemma ExactValueIncreasing(sqrt: real -> real, n: int)
    requires IsExactSqrt(sqrt)
    requires n >= 1
    ensures FunctionRecursive(sqrt, n) < FunctionRecursive(sqrt, n + 1)
  {
    InnerIncreasesWithDepth(sqrt, 1, n);
  }

  /** For every square root, f(1) = 1 and f(2) = sqrt(1 + 2 * 1) = sqrt(3). */
  lemma SmallValues(sqrt: real -> real)
    ensures FunctionRecursive(sqrt, 1) == 1.0
    ensures FunctionRecursive(sqrt, 2) == sqrt(3.0)
  {
  }

  /** With the exact square root, f(3) = sqrt(1 + 2 * sqrt(4)) = sqrt(5). */
  lemma ExactSmallValues(sqrt: real -> real)
    requires IsExactSqrt(sqrt)
    ensures FunctionRecursive(sqrt, 3) == sqrt(5.0)
  {
    ExactSqrtOfSquare(sqrt, 2.0);
    assert InnerFunction(sqrt, 3, 3) == 1.0;
    assert InnerFunction(sqrt, 2, 3) == sqrt(4.0);
  }
}
