// SICP chapter 1 integer recurrences: square, factorial as a linear-recursive
// and as a linear-iterative process, and the growth function A of
// Exercise 1.10.
//
// Integers are unbounded here. The C++ computes factorial in a 64-bit
// unsigned word, which wraps modulo 2^64; that reduction is modelled
// separately (FactorialRecursiveWord) and tied back to the unbounded value.
module Ch1 {
  import opened Arith

  // ---------------------------------------------------------------- square

  /** x * x; the C++ is generic in the operand type, modelled on int. */
  function Square(x: int): (r: int)
    ensures 0 <= r
    ensures r == 0 <==> x == 0
  {
    x * x
  }

  /** The two values the square demo prints. */
  lemma SquareDemo()
    ensures Square(10) == 100
    ensures Square(Square(10)) == 10000
  {
  }

  // ------------------------------------------------------------- factorial

  /** n!, as the linear-recursive process: a chain of deferred
      multiplications that shrinks only once the base case n == 1 is reached.
      For n == 0 the C++ never returns a result: n - 1 wraps to the largest
      word, so the recursion would be 2^64 - 1 calls deep. Hence n >= 1 is
      demanded of callers. */
  function FactorialRecursive(n: nat): (r: nat)
    requires 1 <= n
    ensures n <= r
  {
    if n == 1 then 1 else n * FactorialRecursive(n - 1)
  }

  /** The product lo * (lo + 1) * ... * hi, which is 1 when the range is empty. */
  function ProductRange(lo: nat, hi: nat): nat
    decreases hi + 1 - lo
  {
    if hi < lo then 1 else lo * ProductRange(lo + 1, hi)
  }

  /** Extending a product range by one factor at the top. */
  lemma {:induction false} ProductRangeExtend(lo: nat, hi: nat)
    requires lo <= hi + 1
    ensures ProductRange(lo, hi + 1) == ProductRange(lo, hi) * (hi + 1)
    decreases hi + 1 - lo
  {
    if lo <= hi {
      ProductRangeExtend(lo + 1, hi);
      calc {
        ProductRange(lo, hi + 1);
        lo * ProductRange(lo + 1, hi + 1);
        lo * (ProductRange(lo + 1, hi) * (hi + 1));
        (lo * ProductRange(lo + 1, hi)) * (hi + 1);
        ProductRange(lo, hi) * (hi + 1);
      }
    }
  }

  /** The recursive definition is the product 1 * 2 * ... * n. */
  lemma {:induction false} FactorialIsProduct(n: nat)
    requires 1 <= n
    ensures FactorialRecursive(n) == ProductRange(1, n)
  {
    if n > 1 {
      FactorialIsProduct(n - 1);
      ProductRangeExtend(1, n - 1);
    }
  }

  /** n!, as the linear-iterative process: the whole state is the index `it`
      and the accumulator `result`. For n <= 1 the loop body never runs and
      the result is 1; otherwise the result agrees with FactorialRecursive. */
  method FactorialIterative(n: nat) returns (result: nat)
    ensures n <= 1 ==> result == 1
    ensures 1 <= n ==> result == FactorialRecursive(n)
  {
    var it: nat := 2;
    result := 1;
    while it <= n
      invariant 2 <= it <= (if n < 1 then 1 else n) + 1
      invariant result == FactorialRecursive(it - 1)
      decreases n + 1 - it
    {
      assert FactorialRecursive(it) == it * FactorialRecursive(it - 1);
      result := result * it;
      it := it + 1;
    }
  }

  /** The demo computes 5! both ways; both give 120. */
  method FactorialDemo() returns (recursive: nat, iterative: nat)
    ensures recursive == 120 && iterative == 120
  {
    recursive := FactorialRecursive(5);
    iterative := FactorialIterative(5);
  }

  /** Factorial is increasing. */
  lemma {:induction false} FactorialMonotone(m: nat, n: nat)
    requires 1 <= m <= n
    ensures FactorialRecursive(m) <= FactorialRecursive(n)
    decreases n - m
  {
    if m < n {
      FactorialMonotone(m, n - 1);
      MulAtLeast(n, FactorialRecursive(n - 1));
    }
  }

  // ------------------------------------------------- the 64-bit result word

  /** Number of values of the C++ unsigned result word, 2^64. */
  const WORD_MODULUS: nat := 0x1_0000_0000_0000_0000

  /** factorial_recursive as the C++ computes it: every product is
      reduced modulo 2^64. The argument itself is a word, hence n < 2^64. */
  function FactorialRecursiveWord(n: nat): (r: nat)
    requires 1 <= n < WORD_MODULUS
    ensures r < WORD_MODULUS
  {
    if n == 1 then 1 else (n * FactorialRecursiveWord(n - 1)) % WORD_MODULUS
  }

  /** The word the C++ returns is n! modulo 2^64. */
  lemma {:induction false} FactorialRecursiveWordIsReduced(n: nat)
    requires 1 <= n < WORD_MODULUS
    ensures FactorialRecursiveWord(n) == FactorialRecursive(n) % WORD_MODULUS
  {
    if n > 1 {
      FactorialRecursiveWordIsReduced(n - 1);
      MulModRight(n, FactorialRecursive(n - 1), WORD_MODULUS);
    }
  }

  /** 20! and 21!, either side of 2^64 = 18446744073709551616. */
  lemma FactorialTwentyAndTwentyOne()
    ensures FactorialRecursive(20) == 2432902008176640000
    ensures FactorialRecursive(21) == 51090942171709440000
  {
    assert FactorialRecursive(5) == 120;
    assert FactorialRecursive(10) == 3628800;
    assert FactorialRecursive(15) == 1307674368000;
  }

  /** n! fits in the result word exactly when n <= 20. */
  lemma FactorialFitsWordIff(n: nat)
    requires 1 <= n
    ensures FactorialRecursive(n) < WORD_MODULUS <==> n <= 20
  {
    FactorialTwentyAndTwentyOne();
    if n <= 20 {
      FactorialMonotone(n, 20);
    } else {
      FactorialMonotone(21, n);
    }
  }

  /** Hence the wrapped and the mathematical results agree exactly when
      n <= 20. */
  lemma FactorialWordExactUpTo20(n: nat)
    requires 1 <= n < WORD_MODULUS
    ensures FactorialRecursiveWord(n) == FactorialRecursive(n) <==> n <= 20
  {
    FactorialRecursiveWordIsReduced(n);
    FactorialFitsWordIff(n);
  }

  // ------------------------------------------------- Exercise 1.10: A(x, y)

  /** The growth function of Exercise 1.10, its four cases tried in order.
      The C++ works on doubles holding whole numbers; here x, y and the
      result are naturals. The inner call keeps x and lowers y, the outer call
      lowers x, so the lexicographic pair (x, y) decreases.
      The result is 0 exactly when y is 0, is always even, and exceeds y
      whenever y is positive. */
  function A(x: nat, y: nat): (r: nat)
    ensures r == 0 <==> y == 0
    ensures 0 < y ==> y < r
    ensures r % 2 == 0
    decreases x, y
  {
    if y == 0 then 0
    else if x == 0 then 2 * y
    else if y == 1 then 2
    else A(x - 1, A(x, y - 1))
  }

  /** The case ladder, each rung under the conditions that make it apply. */
  lemma ACases(x: nat, y: nat)
    ensures A(x, 0) == 0
    ensures 0 < y ==> A(0, y) == 2 * y
    ensures 0 < x ==> A(x, 1) == 2
    ensures 0 < x && 1 < y ==> A(x, y) == A(x - 1, A(x, y - 1))
  {
  }

  /** A is strictly increasing in y. */
  lemma AIncreasingInY(x: nat, y: nat)
    ensures A(x, y) < A(x, y + 1)
  {
  }

  /** A(x, 2) == 4 for every x. */
  lemma {:induction false} AAtTwo(x: nat)
    ensures A(x, 2) == 4
  {
    if x > 0 {
      AAtTwo(x - 1);
    }
  }

  /** A(1, y) == 2^y for y >= 1. */
  lemma {:induction false} AOneIsPow2(y: nat)
    requires 1 <= y
    ensures A(1, y) == Pow2(y)
  {
    if y > 1 {
      AOneIsPow2(y - 1);
    }
  }

  /** A(2, y) == 2^A(2, y - 1) for y >= 2. */
  lemma ATwoStep(y: nat)
    requires 2 <= y
    ensures A(2, y) == Pow2(A(2, y - 1))
  {
    AOneIsPow2(A(2, y - 1));
  }

  /** A(2, y) is the tower of y twos for y >= 1. */
  lemma {:induction false} ATwoIsTower(y: nat)
    requires 1 <= y
    ensures A(2, y) == Tower(y)
  {
    if y > 1 {
      ATwoIsTower(y - 1);
      ATwoStep(y);
    }
  }

  /** A(3, y) == Tower(A(3, y - 1)) for y >= 2. */
  lemma AThreeStep(y: nat)
    requires 2 <= y
    ensures A(3, y) == Tower(A(3, y - 1))
  {
    ATwoIsTower(A(3, y - 1));
  }

  /** A(1, 10) == 2^10. */
  lemma AOneTen()
    ensures A(1, 10) == 1024
  {
    AOneIsPow2(10);
  }

  /** A(2, 4) == 2^2^2^2. */
  lemma ATwoFour()
    ensures A(2, 4) == 65536
  {
    ATwoIsTower(4);
    TowerFour();
  }

  /** A(3, 3) == A(2, 4), since A(3, 2) == 4. */
  lemma AThreeThree()
    ensures A(3, 3) == 65536
  {
    AAtTwo(3);
    assert A(3, 3) == A(2, A(3, 2));
    ATwoFour();
  }

  /** A is monotone in y. */
  lemma {:induction false} AMonotoneInY(x: nat, y: nat, z: nat)
    requires y <= z
    ensures A(x, y) <= A(x, z)
    decreases z - y
  {
    if y < z {
      AMonotoneInY(x, y, z - 1);
      AIncreasingInY(x, z - 1);
    }
  }

  /** The demo's A(3, 4) is a tower of 65536 twos. */
  lemma AThreeFour()
    ensures A(3, 4) == Tower(65536)
  {
    AThreeThree();
    AThreeStep(4);
  }

  /** From y == 4 on, A(3, y) exceeds 2^1024 and so lies past the largest
      finite double. */
  lemma AThreePastDoubleRange(y: nat)
    requires 4 <= y
    ensures Pow2(1024) < A(3, y)
  {
    AThreeThree();
    AMonotoneInY(3, 3, y - 1);
    AThreeStep(y);
    TowerPast2To1024(A(3, y - 1));
  }
}
