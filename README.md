# SICP chapter 1 integer recurrences, verified

A Dafny model of the integer part of `ch1.cpp`, a C++ transcription of
exercises from chapter 1 of *Structure and Interpretation of Computer
Programs*:

- `square`, the generic one-line `x * x`, modelled on `int`;
- factorial in two process shapes: `factorial_recursive`, a
  linear-recursive process whose deferred multiplications unwind from the
  base case `n == 1`, and `factorial_iterative`, a linear-iterative process
  whose whole state is the index `it` and the accumulator `result`;
- `A`, the growth function of Exercise 1.10, a four-case ladder tried in
  order whose last case nests a recursive call in the second argument.

`factorial_recursive` and `A` are pure, so they are functions with lemmas.
`factorial_iterative` changes two local variables step by step, so it is a
method with a `while` loop whose invariants tie the accumulator to the
recursive definition.

Numbers are unbounded naturals. The C++ computes factorial in a 64-bit
`std::size_t`, which wraps modulo 2^64. `Ch1.FactorialRecursiveWord` models
that wrapped recursion, and lemmas tie it back to the unbounded value: the
word is `n! mod 2^64`, and it agrees with `n!` exactly when `n <= 20`.
The C++ types `A` over `double`. Here its arguments and result are naturals,
and a lemma shows that `A(3, y)` exceeds 2^1024 from `y == 4` on. No finite
double can hold a value that large.

The module `Arith` (file `arith.dfy`) holds the mathematical vocabulary:
`Pow2`, `Tower` (a tower of twos, with `Tower(0) == 1`), and facts about
Euclidean remainder. The module `Ch1` (file `ch1.dfy`) is the model of the
source file.

The C++ `factorial_iterative` accepts `n == 0` and returns 1, because its
loop starts at `it == 2`. The model does the same.

## Model

| member | source | states |
|---|---|---|
| Ch1.Square | ch1.cpp:33 | the square is never negative, and it is zero exactly when the argument is zero |
| Ch1.SquareDemo | ch1.cpp:38-41 | the demo's two values: `square(10) == 100` and `square(square(10)) == 10000` |
| Ch1.FactorialRecursive | ch1.cpp:171-176 | `n!` for `n >= 1` (callers must pass `n >= 1`, since the C++ recursion does not end at 0), and the result is at least `n` |
| Ch1.FactorialIsProduct | ch1.cpp:171-176 | the recursive definition equals the product `1 * 2 * ... * n`, an independent definition of `n!` |
| Ch1.FactorialMonotone | ch1.cpp:171-176 | `m <= n` implies `m! <= n!` |
| Ch1.FactorialIterative | ch1.cpp:182-192 | the loop over `it` and `result` returns 1 when `n <= 1`, because the body never runs, and otherwise returns exactly `FactorialRecursive(n)`; the invariants are `2 <= it <= max(n, 1) + 1` and `result == (it - 1)!` |
| Ch1.FactorialDemo | ch1.cpp:197-200 | the demo's two calls at 5 both give 120 |
| Ch1.FactorialRecursiveWord | ch1.cpp:171-176 | the recursion as the C++ computes it, each product reduced modulo 2^64; the result always fits in a 64-bit word |
| Ch1.FactorialRecursiveWordIsReduced | ch1.cpp:171-176 | the wrapped result equals `n! mod 2^64` for every word-sized `n >= 1` |
| Ch1.FactorialTwentyAndTwentyOne | ch1.cpp:171-176 | `20! == 2432902008176640000` and `21! == 51090942171709440000` |
| Ch1.FactorialFitsWordIff | ch1.cpp:171 | `n!` is below 2^64 if and only if `n <= 20` |
| Ch1.FactorialWordExactUpTo20 | ch1.cpp:171-176 | for word-sized `n >= 1`, the wrapped C++ result equals the true `n!` if and only if `n <= 20` |
| Ch1.A | ch1.cpp:214-225 | the growth function on naturals, terminating by the lexicographic order on `(x, y)`; the result is 0 if and only if `y == 0`, it is always even, and it exceeds `y` whenever `y > 0` |
| Ch1.ACases | ch1.cpp:215-224 | the ladder applies in source order: `A(x, 0) == 0`; `A(0, y) == 2y` for `y > 0`; `A(x, 1) == 2` for `x > 0`; otherwise `A(x, y) == A(x - 1, A(x, y - 1))` |
| Ch1.AIncreasingInY | ch1.cpp:214-225 | `A(x, y) < A(x, y + 1)` |
| Ch1.AMonotoneInY | ch1.cpp:214-225 | `y <= z` implies `A(x, y) <= A(x, z)` |
| Ch1.AAtTwo | ch1.cpp:214-225 | `A(x, 2) == 4` for every `x` |
| Ch1.AOneIsPow2 | ch1.cpp:214-225 | `A(1, y) == 2^y` for `y >= 1` |
| Ch1.ATwoStep | ch1.cpp:214-225 | `A(2, y) == 2^A(2, y - 1)` for `y >= 2` |
| Ch1.ATwoIsTower | ch1.cpp:214-225 | `A(2, y)` is a tower of `y` twos for `y >= 1` |
| Ch1.AThreeStep | ch1.cpp:214-225 | `A(3, y)` is a tower of `A(3, y - 1)` twos for `y >= 2` |
| Ch1.AOneTen | ch1.cpp:214-225 | `A(1, 10) == 1024` |
| Ch1.ATwoFour | ch1.cpp:214-225 | `A(2, 4) == 65536` |
| Ch1.AThreeThree | ch1.cpp:214-225 | `A(3, 3) == 65536` |
| Ch1.AThreeFour | ch1.cpp:230 | the demo's `A(3, 4)` is a tower of 65536 twos |
| Ch1.AThreePastDoubleRange | ch1.cpp:214 | `A(3, y) > 2^1024` for `y >= 4`, beyond every finite double |

## Left out

- `approximate_root`, `approximate_root_ez`, `approximate_cube_root`, `improve_guess`, `is_good_enough` and `abs` (ch1.cpp:91-154): their behaviour is floating-point convergence. Their loops stop when two doubles are bit-identical, and they call `std::pow` and `std::abs`. None of this can be stated faithfully over Dafny's exact numbers.
- The global counter `n_iterations` (ch1.cpp:108): it only counts iterations of the Newton loops above.
- `println` (ch1.cpp:19-25) and the preprocessor-selected `main` functions: console I/O and demo drivers. Their printed values for `square` and factorial are stated as `Ch1.SquareDemo` and `Ch1.FactorialDemo`.
- Ch1.A: does not model the `double` representation. There is no rounding, and no overflow to infinity. In doubles, `A(1, y)` becomes infinite from `y == 1024` on. A call such as `A(1, inf)` then recurses on `inf - 1 == inf` without end. So the demo call `A(3, 4)` (ch1.cpp:230) cannot finish in the C++. The model gives its exact value instead. Stack depth is not modelled either.
- Ch1.FactorialIterative: works on unbounded naturals, not on `std::size_t`. The C++ `result` wraps modulo 2^64. For `n == 2^64 - 1` its `it` also wraps, so its loop never ends. The wrap of the result is modelled for the recursive shape only, by `Ch1.FactorialRecursiveWord`.
- Ch1.FactorialRecursive: excludes `n == 0` by its precondition. In the C++, `0 - 1` wraps to the largest word, so `factorial_recursive(0)` never returns a result: the recursion would be 2^64 - 1 calls deep.
- Ch1.Square: modelled on unbounded `int` only. On a 32-bit C++ `int`, `x * x` overflows, which is undefined behaviour, once `|x| > 46340`; the model does not capture this. The C++ template also runs on other types, such as `double`, where overflow and rounding apply. The demo uses only small ints.
