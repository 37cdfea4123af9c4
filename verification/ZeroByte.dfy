/** The zero-byte test that lets the bit writer skip the search for bytes to stuff. */
module ZeroByte {
  import opened Arithmetic
  import opened BitStrings

  function Sub(x: uint64, y: uint64): uint64 {
    (x - y) % WORD
  }

  function Not(x: uint64): uint64 {
    WORD - 1 - x
  }

  function HasZeroByte(x: uint64): nat {
    And(And(Sub(x, 0x0101_0101_0101_0101), Not(x), 64), 0x8080_8080_8080_8080, 64)
  }

  /** And works on the high and the low part of its operands separately. */
  lemma {:induction false} AndOfParts(a: nat, c: nat, b: nat, d: nat, w: nat, k: nat)
    requires c < Pow2(k) && d < Pow2(k)
    ensures And(a * Pow2(k) + c, b * Pow2(k) + d, w + k) == And(a, b, w) * Pow2(k) + And(c, d, k)
  {
    if k > 0 {
      var p := Pow2(k - 1);
      HalfOfParts(a, p, c);
      HalfOfParts(b, p, d);
      AndHalves(a * Pow2(k) + c, b * Pow2(k) + d, w + k);
      AndHalves(c, d, k);
      HalfOfParts(And(a, b, w), p, And(c, d, k));
      hide And;
      AndOfParts(a, c / 2, b, d / 2, w, k - 1);
    } else {
      assert Pow2(0) == 1;
    }
  }

  lemma AndHalves(x: nat, y: nat, w: nat)
    requires w > 0
    ensures And(x, y, w) == 2 * And(x / 2, y / 2, w - 1) + (if x % 2 == 1 && y % 2 == 1 then 1 else 0)
  {
  }

  lemma HalfOfParts(a: nat, p: nat, c: nat)
    ensures a * (2 * p) == 2 * (a * p)
    ensures (a * (2 * p) + c) / 2 == a * p + c / 2 && (a * (2 * p) + c) % 2 == c % 2
  {
  }

  /** The top bit of a byte is set in a & b exactly if it is set in both. */
  lemma TopBitOfAnd(a: Byte, b: Byte)
    ensures And(a, b, 8) >= 128 <==> a >= 128 && b >= 128
    ensures And(a, 128, 8) == (if a >= 128 then 128 else 0)
  {
    AndOfTopBit(a / 128, a % 128, b / 128, b % 128);
    AndOfTopBit(a / 128, a % 128, 1, 0);
    AndWithZero(a % 128, 7);
    AndOneBit(a / 128, b / 128);
    AndOneBit(a / 128, 1);
    hide And;
  }

  lemma AndOfTopBit(a: nat, c: nat, b: nat, d: nat)
    requires c < 128 && d < 128
    ensures And(128 * a + c, 128 * b + d, 8) == 128 * And(a, b, 1) + And(c, d, 7) && And(c, d, 7) < 128
  {
    assert Pow2(7) == 128 by {
      Pow2Of8();
    }
    hide *;
    AndOfParts(a, c, b, d, 1, 7);
    assert a * 128 == 128 * a && b * 128 == 128 * b && And(a, b, 1) * 128 == 128 * And(a, b, 1);
  }

  lemma AndOneBit(a: nat, b: nat)
    requires a <= 1 && b <= 1
    ensures And(a, b, 1) == if a == 1 && b == 1 then 1 else 0
  {
  }

  /** The n-byte number whose bytes are all c. */
  function Repeat(c: Byte, n: nat): nat {
    if n == 0 then 0 else 256 * Repeat(c, n - 1) + c
  }

  /** The test of HasZeroByte on n-byte numbers. */
  function ZeroByteMask(x: nat, n: nat): nat
    requires x < Pow2(8 * n)
  {
    var p := Pow2(8 * n);
    And(And((x - Repeat(1, n)) % p, p - 1 - x, 8 * n), Repeat(128, n), 8 * n)
  }

  /** Subtracting with wrap-around at 256 * p: the low byte, and the difference of the upper parts. */
  lemma BorrowFreeSub(h: int, r: int, l: int, p: int, x: int, y: int, q: int, d: int, e: int)
    requires p > 0 && 0 <= l < 256
    requires x == 256 * h + l && y == 256 * r + 1 && q == 256 * p
    requires if l >= 1 then d == h - r && e == l - 1 else d == h - r - 1 && e == 255
    ensures (x - y) % q == 256 * (d % p) + e
  {
    assert d == (d / p) * p + d % p;
    assert x - y == (d / p) * q + (256 * (d % p) + e);
    DivModUnique(x - y, q, d / p, 256 * (d % p) + e);
  }

  lemma AndOfBytes(a: nat, c: Byte, b: nat, d: Byte, w: nat)
    ensures And(256 * a + c, 256 * b + d, w + 8) == 256 * And(a, b, w) + And(c, d, 8)
  {
    Pow2Of8();
    AndOfParts(a, c, b, d, w, 8);
  }

  lemma MaskOfParts(a: nat, c: Byte, b: nat, d: Byte, m: nat, w: nat)
    ensures And(And(256 * a + c, 256 * b + d, w + 8), 256 * m + 128, w + 8)
         == 256 * And(And(a, b, w), m, w) + (if c >= 128 && d >= 128 then 128 else 0)
  {
    assert And(c, d, 8) < 256 by { Pow2Of8(); }
    hide And;
    AndOfBytes(a, c, b, d, w);
    AndOfBytes(And(a, b, w), And(c, d, 8), m, 128, w);
    TopBitOfAnd(c, d);
    TopBitOfAnd(And(c, d, 8), 128);
  }

  lemma TopOfNBytes(n: nat)
    requires n > 0
    ensures Pow2(8 * n) == 256 * Pow2(8 * (n - 1)) && 8 * n == 8 * (n - 1) + 8
  {
    Pow2Of8();
    Pow2Sum(8 * (n - 1), 8);
  }

  /** What the lowest byte contributes to the mask. */
  lemma ZeroByteMaskStep(h: nat, l: Byte, n: nat, x: nat)
    requires n > 0 && h < Pow2(8 * (n - 1)) && x == 256 * h + l && x < Pow2(8 * n)
    ensures l == 0 ==> ZeroByteMask(x, n) != 0
    ensures l >= 1 ==> ZeroByteMask(x, n) == 256 * ZeroByteMask(h, n - 1)
  {
    var w := 8 * (n - 1);
    var p, q := Pow2(w), Pow2(8 * n);
    TopOfNBytes(n);
    var r, y := Repeat(1, n - 1), Repeat(1, n);
    var d := if l >= 1 then h - r else h - r - 1;
    var e := if l >= 1 then l - 1 else 255;
    BorrowFreeSub(h, r, l, p, x, y, q, d, e);
    var m, m' := Repeat(128, n - 1), Repeat(128, n);
    MaskOfParts(d % p, e, p - 1 - h, 255 - l, m, w);
    assert m' == 256 * m + 128;
    assert q - 1 - x == 256 * (p - 1 - h) + (255 - l);
    assert ZeroByteMask(x, n) == And(And((x - y) % q, q - 1 - x, w + 8), m', w + 8);
  }

  /** Byte by byte: without a borrow from below the low byte contributes a bit only if it is zero,
      and the first zero byte from below always contributes one. */
  lemma {:induction false} ZeroByteMaskIff(x: nat, n: nat)
    requires x < Pow2(8 * n)
    ensures ZeroByteMask(x, n) != 0 <==> 0 in LowBytes(x, n)
  {
    if n > 0 {
      Pow2Of8();
      Pow2Sum(8 * (n - 1), 8);
      ZeroByteMaskStep(x / 256, x % 256, n, x);
      assert LowBytes(x, n)[n - 1] == x % 256;
      assert forall i :: 0 <= i < n - 1 ==> LowBytes(x, n)[i] == LowBytes(x / 256, n - 1)[i];
      ZeroByteMaskIff(x / 256, n - 1);
    } else {
      AndWithZero(0, 0);
    }
  }

  /** HasZeroByte(x) is non-zero if and only if one of the eight bytes of x is zero. */
  lemma HasZeroByteIff(x: uint64)
    ensures HasZeroByte(x) != 0 <==> 0 in WordBytes(x)
  {
    Pow2Of64();
    assert Repeat(1, 4) == 0x0101_0101;
    assert Repeat(1, 8) == 0x0101_0101_0101_0101;
    assert Repeat(128, 8) == 0x8080_8080_8080_8080;
    ZeroByteMaskIff(x, 8);
  }

  /** The bytes of ~x are the complements of the bytes of x. */
  lemma BytesOfNot(x: uint64)
    ensures forall i :: 0 <= i < 8 ==> WordBytes(Not(x))[i] == 255 - WordBytes(x)[i]
  {
    Pow2Of64();
    LowBytesOfComplement(x, 8);
  }

  lemma {:induction false} LowBytesOfComplement(x: nat, n: nat)
    requires x < Pow2(8 * n)
    ensures forall i :: 0 <= i < n ==> LowBytes(Pow2(8 * n) - 1 - x, n)[i] == 255 - LowBytes(x, n)[i]
  {
    if n > 0 {
      Pow2Of8();
      Pow2Sum(8, 8 * (n - 1));
      LowBytesOfComplement(x / 256, n - 1);
    }
  }
}
