// Mathematical vocabulary the chapter 1 model is stated in: powers of two,
// towers of twos, and the facts about Euclidean remainder that let a
// product be reduced modulo a machine word one factor at a time.
module Arith {

  /** 2^k. */
  function Pow2(k: nat): (r: nat)
    ensures 1 <= r
    ensures k < r
  {
    if k == 0 then 1 else 2 * Pow2(k - 1)
  }

  /** Pow2 is strictly increasing in its exponent. */
  lemma {:induction false} Pow2StrictlyIncreasing(a: nat, b: nat)
    requires a < b
    ensures Pow2(a) < Pow2(b)
  {
    if a + 1 < b {
      Pow2StrictlyIncreasing(a, b - 1);
    }
  }

  /** The tower of k twos, 2^2^...^2 (Knuth's 2^^k), with Tower(0) == 1. */
  function Tower(k: nat): (r: nat)
    ensures k < r
  {
    if k == 0 then 1 else Pow2(Tower(k - 1))
  }

  /** Tower is increasing in its height. */
  lemma {:induction false} TowerIncreasing(a: nat, b: nat)
    requires a <= b
    ensures Tower(a) <= Tower(b)
  {
    if a < b {
      TowerIncreasing(a, b - 1);
      assert Tower(b - 1) < Pow2(Tower(b - 1));
    }
  }

  /** Tower(4) == 2^16 == 65536. */
  lemma TowerFour()
    ensures Tower(4) == 65536
  {
    assert Tower(3) == 16;
    assert Pow2(8) == 256;
    assert Pow2(16) == 65536;
  }

  /** From height 5 on, a tower exceeds 2^1024. */
  lemma TowerPast2To1024(h: nat)
    requires 5 <= h
    ensures Pow2(1024) < Tower(h)
  {
    TowerIncreasing(4, h - 1);
    TowerFour();
    Pow2StrictlyIncreasing(1024, Tower(h - 1));
  }

  /** A positive multiple of m is at least m. */
  lemma {:induction false} MulAtLeast(d: int, m: nat)
    requires 0 < d
    ensures m <= d * m
  {
    if d > 1 {
      MulAtLeast(d - 1, m);
      assert d * m == (d - 1) * m + m;
    }
  }

  /** The remainder is determined by any decomposition a == d * m + s with
      0 <= s < m. */
  lemma ModUnique(a: nat, d: nat, s: nat, m: nat)
    requires 0 < m && s < m && a == d * m + s
    ensures a % m == s
  {
    var d', s' := a / m, a % m;
    assert a == d' * m + s';
    assert (d - d') * m == s' - s;
    if d > d' {
      MulAtLeast(d - d', m);
    } else if d' > d {
      MulAtLeast(d' - d, m);
    }
  }

  /** Adding a multiple of m does not change the remainder modulo m. */
  lemma AddMultipleMod(c: nat, k: nat, m: nat)
    requires 0 < m
    ensures (c + k * m) % m == c % m
  {
    var q, s := c / m, c % m;
    assert c == q * m + s;
    assert c + k * m == (q + k) * m + s;
    ModUnique(c + k * m, q + k, s, m);
  }

  /** Reducing the right factor of a product modulo m first does not change
      the product's remainder modulo m. */
  lemma MulModRight(a: nat, b: nat, m: nat)
    requires 0 < m
    ensures (a * (b % m)) % m == (a * b) % m
  {
    var q, s := b / m, b % m;
    assert b == q * m + s;
    Distribute(a, q * m, s);
    assert a * (q * m) == (a * q) * m;
    AddMultipleMod(a * s, a * q, m);
  }

  /** Multiplication distributes over addition. */
  lemma Distribute(a: nat, u: nat, v: nat)
    ensures a * (u + v) == a * u + a * v
  {
  }
}
