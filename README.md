# Ramanujan nested radical: recursive and iterative evaluation

`program.py` evaluates the Ramanujan nested radical truncated after n levels,

    f(n) = sqrt(1 + 2 * sqrt(1 + 3 * sqrt(1 + ... + n * 1)))

in two ways and reports whether the two give exactly the same numbers.

- `function_recursive(n)` works top-down through `inner_function(k, n)`.
  Level n is 1.0. Level k < n is `sqrt(1 + (k + 1) * level(k + 1))`.
  The result is level 1.
- `function_iterative(n)` works bottom-up. It starts from `value = 1.0` and,
  for `number` = n, n - 1, ..., 2, replaces `value` by
  `sqrt(value * number + 1)`.

The model is one Dafny module, `Ramanujan`, in `ramanujan.dfy`.

- `InnerFunction` is a recursive function defined by exactly the equations
  above, with termination measure `n - k`. `FunctionRecursive` is the single
  call `InnerFunction(sqrt, 1, n)`.
- `FunctionIterative` is a method with a `while` loop. Its loop invariant
  says that `value` equals `InnerFunction` at the current level.
- Values are `real`. The square root is `math.sqrt`, a library call outside
  the model, so every member that evaluates the radical takes it as a
  parameter `sqrt: real -> real`. The arithmetic helpers (`Radicand` and the
  lemmas about products and squares) do not need it.
- The two evaluations are proved equal for every `sqrt`. They take the
  square root of the same arguments in the same order: the method returns a
  ghost trace of its `sqrt` arguments, proved equal to `Radicands`, the
  arguments of the recursive evaluation in call order. This is also why the
  script's exact equality check on floats holds: `value * number + 1` and
  `1 + (k + 1) * level` are the same float, because IEEE addition and
  multiplication are commutative.
- Lower bounds assume only `PreservesAtLeastOne`: sqrt(x) >= 1 whenever x >= 1.
- The upper bound, monotonicity and concrete values assume `IsExactSqrt`:
  sqrt(x) is the non-negative root of x.
- `InnerCall` models Python's own behaviour with a budget of stack frames,
  where a failure to return is `None`. Started above its bound,
  `inner_function` never reaches `k == n`: for n < 1, `function_recursive(n)`
  never returns a value. That is why `FunctionRecursive` requires `n >= 1`.
  `function_iterative(n)` returns 1.0 for every n <= 1.

## Model

| member | source | states |
|---|---|---|
| `Ramanujan.InnerFunction` | program.py:17-26 | inner_function terminates when started at or below its bound (`k <= n`, measure `n - k`). From a level k >= 0, with a sqrt that maps values >= 1 to values >= 1, every level is at least 1.0 |
| `Ramanujan.FunctionRecursive` | program.py:14-29 | function_recursive(n) = inner_function(1, n) needs n >= 1. At n = 1 the result is exactly 1.0, with no square root taken. The result is at least 1.0 under the same sqrt hypothesis |
| `Ramanujan.Radicands` | program.py:17-26 | evaluating inner_function(k, n) takes exactly n - k square roots, the deepest level first |
| `Ramanujan.RadicandsAtLeastTwo` | program.py:22-26 | every argument passed to sqrt by the recursion is at least 2, so sqrt never sees a negative number |
| `Ramanujan.FunctionIterative` | program.py:41-45 | for n >= 1, function_iterative(n) equals function_recursive(n) for every sqrt, which is the equality the script checks at program.py:63. The loop takes the same n - 1 square roots of the same arguments, in the same order, as the recursion. For n <= 1 the loop is empty and the result is 1.0. The result is at least 1.0 under the lower-bound hypothesis |
| `Ramanujan.InnerCallBelowBound` | program.py:17-26 | started at k <= n, inner_function returns InnerFunction's value exactly when it has the n - k + 1 stack frames it needs, and fails with fewer |
| `Ramanujan.InnerCallAboveBound` | program.py:17-26 | started at k > n, inner_function never reaches its stopping condition, however many frames it gets |
| `Ramanujan.RecursiveCallReturnsIff` | program.py:14-29 | function_recursive(n) returns a value if and only if n >= 1 and it has n frames. That value is FunctionRecursive(n) |
| `Ramanujan.InnerBelowLevelPlusTwo` | program.py:17-26 | with the exact square root, level k is strictly below k + 2 |
| `Ramanujan.ExactValueBetweenOneAndThree` | program.py:14-29 | with the exact square root, 1 <= f(n) < 3 for every n >= 1 |
| `Ramanujan.InnerIncreasesWithDepth` | program.py:17-26 | with the exact square root, truncating one level deeper strictly increases every level |
| `Ramanujan.ExactValueIncreasing` | program.py:14-29 | with the exact square root, f(n) < f(n + 1) |
| `Ramanujan.InnerCall` | program.py:17-29 | inner_function(k, n) as Python runs it, with a budget of stack frames and `None` for the RecursionError. A value comes back only when k <= n and more than n - k frames were available; InnerCallBelowBound and InnerCallAboveBound describe it fully |
| `Ramanujan.SmallValues` | program.py:14-29 | for every square root, f(1) = 1 and f(2) = sqrt(3) |
| `Ramanujan.ExactSmallValues` | program.py:14-29 | with the exact square root, f(3) = sqrt(1 + 2 * sqrt(4)) = sqrt(5) |

## Left out

- IEEE-754 rounding and the concrete `math.sqrt`. Values are `real`, and the square root is a parameter constrained only by the named hypotheses.
- The int-to-float conversion of `number` in `value * number`. It is exact for the depths the script uses.
- The frame budget in `InnerCall` is abstract. The model does not fix Python's recursion limit (1000 by default) or count the frames the interpreter itself uses.
- How fast f(n) converges to 3, and whether the differences |f(n) - f(n-1)| shrink. This is real analysis about the infinite radical, and the code does not promise it.
- The driver (`MAX_NUMBER`, the list of depths 1..50, collecting both result lists, program.py:48-57). It is glue around the two functions.
- Printing and plotting with matplotlib (program.py:59-76). This is I/O.
