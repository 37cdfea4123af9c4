/** Integer arithmetic that several components share. */
module Arithmetic {
  type Byte = x: int | 0 <= x < 256

  /** The number of values of a 64-bit word, and the largest 32-bit int. */
  const WORD: int := 0x1_0000_0000_0000_0000
  const INT_MAX := 0x7fff_ffff

  function Abs(x: int): nat {
    if x < 0 then -x else x
  }

  function Min(a: int, b: int): int {
    if a < b then a else b
  }

  function Max(a: int, b: int): int {
    if a < b then b else a
  }

  function Square(x: int): (s: nat)
    ensures x != 0 ==> s > 0
  {
    SquareFacts(x);
    x * x
  }

  lemma SquareFacts(x: int)
    ensures x * x >= 0 && (x != 0 ==> x * x > 0)
  {
  }

  lemma SquareMono(a: int, b: int)
    requires -b <= a <= b
    ensures Square(a) <= Square(b)
    ensures -b < a < b ==> Square(a) < Square(b)
  {
    assert b * b - a * a == (b - a) * (b + a);
    MulNat(b - a, b + a);
  }

  lemma MulNat(a: nat, b: nat)
    ensures a * b >= 0
    ensures a > 0 && b > 0 ==> a * b > 0
  {
  }

  lemma SquareOfNegative(x: int)
    ensures Square(-x) == Square(x)
  {
  }

  lemma Scaled(n: nat, a: int, b: int)
    requires a <= b
    ensures n * a <= n * b
  {
  }

  lemma Unscaled(n: nat, a: int, b: int)
    requires n * a < n * b
    ensures a < b
  {
  }

  lemma Spread(n: int, a: int, b: int)
    ensures n * (a - b) == n * a - n * b
  {
  }

  /** The multiples of n that are smaller than n in magnitude: none but 0. */
  lemma NoMultipleBetween(n: nat, d: int)
    ensures n * d <= -(n as int) || d == 0 || n * d >= n
  {
    if d >= 1 {
      assert n * d >= n;
    } else if d <= -1 {
      assert n * d <= -(n as int);
    }
  }

  lemma QuotientAndRest(n: nat, x: int)
    requires n > 0
    ensures x == n * (x / n) + x % n
  {
  }

  /** The rest of a division is unique. */
  lemma Residue(x: int, m: nat, q: int, p: int)
    requires m > 0 && x == m * q + p && 0 <= p < m
    ensures x % m == p
  {
    assert x == m * (x / m) + x % m;
    assert m * (q - x / m) == m * q - m * (x / m);
    NoMultipleBetween(m, q - x / m);
  }
}
