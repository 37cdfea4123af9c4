/**
 64-bit words with the wrap-around of uint64_t, bit strings (most significant bit first),
 and bytes.
 */
module BitStrings {
  import opened Arithmetic

  type Bits = seq<bool>
  type uint64 = x: int | 0 <= x < WORD

  function Pow2(k: nat): (p: int)
    ensures p > 0
  {
    if k == 0 then 1 else 2 * Pow2(k - 1)
  }

  // ---------------------------------------------------------------- operators of uint64_t

  /** x << k for an int k in 0..63: k shifts by one, bits leave at the top. */
  function Shl(x: uint64, k: nat): uint64 {
    if k == 0 then x else (2 * Shl(x, k - 1)) % WORD
  }

  /** x >> k for an int k in 0..63. */
  function Shr(x: uint64, k: nat): uint64 {
    if k == 0 then x else Shr(x / 2, k - 1)
  }

  lemma {:induction false} ShlAsProduct(x: uint64, k: nat)
    ensures Shl(x, k) == (x * Pow2(k)) % WORD
  {
    if k > 0 {
      ShlAsProduct(x, k - 1);
      DoubleMod(x * Pow2(k - 1));
      assert x * Pow2(k) == 2 * (x * Pow2(k - 1));
    }
  }

  lemma DoubleMod(y: int)
    ensures (2 * (y % WORD)) % WORD == (2 * y) % WORD
  {
    assert 2 * y == 2 * (y % WORD) + (2 * (y / WORD)) * WORD;
  }

  lemma {:induction false} ShrAsQuotient(x: uint64, k: nat)
    ensures Shr(x, k) == x / Pow2(k)
  {
    if k > 0 {
      ShrAsQuotient(x / 2, k - 1);
      DivTwice(x, Pow2(k - 1));
    }
  }

  lemma MulBounds(d: int, p: int)
    requires p > 0
    ensures d >= 1 ==> d * p >= p && d * p >= d
    ensures d <= -1 ==> d * p <= -p
  {
    if d >= 1 {
      assert d * p == (d - 1) * p + p;
      assert d * p == d * (p - 1) + d;
    } else if d <= -1 {
      assert d * p == (d + 1) * p - p;
    }
  }

  /** a | b on w-bit values. */
  function Or(a: nat, b: nat, w: nat): (r: nat)
    ensures r < Pow2(w)
  {
    if w == 0 then 0 else
      2 * Or(a / 2, b / 2, w - 1) + (if a % 2 == 1 || b % 2 == 1 then 1 else 0)
  }

  /** a & b on w-bit values. */
  function And(a: nat, b: nat, w: nat): (r: nat)
    ensures r < Pow2(w)
  {
    if w == 0 then 0 else
      2 * And(a / 2, b / 2, w - 1) + (if a % 2 == 1 && b % 2 == 1 then 1 else 0)
  }

  lemma {:induction false} AndWithZero(a: nat, w: nat)
    ensures And(a, 0, w) == 0
  {
    if w > 0 {
      AndWithZero(a / 2, w - 1);
    }
  }

  lemma Pow2Of8()
    ensures Pow2(8) == 256
  {
    Pow2Sum(4, 4);
    assert Pow2(4) == 16;
  }

  lemma Pow2Of64()
    ensures Pow2(64) == WORD
  {
    Pow2Of8();
    Pow2Sum(8, 8);
    Pow2Sum(16, 16);
    Pow2Sum(32, 32);
  }

  lemma QuotientBound(x: nat, p: int, q: int)
    requires p > 0 && x < q * p
    ensures 0 <= x / p < q
  {
    var d := x / p - q;
    assert x == (x / p) * p + x % p;
    assert d * p == (x / p) * p - q * p;
    MulBounds(d, p);
  }

  lemma {:induction false} Pow2Sum(a: nat, b: nat)
    ensures Pow2(a + b) == Pow2(a) * Pow2(b)
  {
    if a > 0 {
      Pow2Sum(a - 1, b);
    }
  }

  lemma {:induction false} Pow2Mono(a: nat, b: nat)
    requires a <= b
    ensures Pow2(a) <= Pow2(b)
  {
    if a < b {
      Pow2Mono(a, b - 1);
    }
  }

  // ---------------------------------------------------------------- the low bits of a number

  /** The n lowest bits of x. */
  function Low(x: nat, n: nat): (s: Bits)
    ensures |s| == n
  {
    if n == 0 then [] else Low(x / 2, n - 1) + [x % 2 == 1]
  }

  function Zeros(n: nat): (s: Bits)
    ensures |s| == n
  {
    seq(n, _ => false)
  }

  function Ones(n: nat): (s: Bits)
    ensures |s| == n
  {
    seq(n, _ => true)
  }

  lemma DivTwice(x: int, p: int)
    requires p > 0
    ensures (x / 2) / p == x / (2 * p)
    ensures (x % (2 * p)) / 2 == (x / 2) % p && (x % (2 * p)) % 2 == x % 2
  {
    var q, r := x / (2 * p), x % (2 * p);
    assert x == q * (2 * p) + r;
    assert x == 2 * (q * p) + r;
    assert x / 2 == q * p + r / 2 && x % 2 == r % 2;
    DivModUnique(x / 2, p, q, r / 2);
  }

  lemma ShiftTwice(x: int, p: int)
    requires p > 0
    ensures x / (2 * p) == x / p / 2
  {
    var q, r := x / p, x % p;
    var h, l := q / 2, q % 2;
    assert x == q * p + r && q == 2 * h + l;
    OneMoreBit(h, l, p);
    assert 0 <= l * p + r < 2 * p;
    DivModUnique(x, 2 * p, h, l * p + r);
  }

  lemma OneMoreBit(h: int, l: int, p: int)
    requires 0 <= l < 2
    ensures (2 * h + l) * p == h * (2 * p) + l * p && (l == 0 ==> l * p == 0) && (l == 1 ==> l * p == p)
  {
  }

  lemma DivModUnique(x: int, p: int, q: int, r: int)
    requires p > 0 && x == q * p + r && 0 <= r < p
    ensures x / p == q && x % p == r
  {
    var d := x / p - q;
    assert d * p == r - x % p;
    MulBounds(d, p);
  }

  /** The n + s lowest bits of x are the n lowest bits of x >> s followed by the s lowest of x. */
  lemma {:induction false} LowSplit(x: nat, n: nat, s: nat)
    ensures x / Pow2(s) >= 0
    ensures Low(x, n + s) == Low(x / Pow2(s), n) + Low(x, s)
  {
    if s > 0 {
      LowSplit(x / 2, n, s - 1);
      DivTwice(x, Pow2(s - 1));
    }
  }

  lemma {:induction false} LowOfMod(x: nat, n: nat, m: nat)
    requires n <= m
    ensures Low(x % Pow2(m), n) == Low(x, n)
  {
    if n > 0 {
      DivTwice(x, Pow2(m - 1));
      LowOfMod(x / 2, n - 1, m - 1);
    }
  }

  lemma {:induction false} LowOfMultiple(x: nat, n: nat, k: nat)
    ensures Low(x * Pow2(k), n + k) == Low(x, n) + Zeros(k)
  {
    if k > 0 {
      assert x * Pow2(k) == 2 * (x * Pow2(k - 1));
      LowOfMultiple(x, n, k - 1);
      assert Zeros(k) == Zeros(k - 1) + [false];
    }
  }

  lemma {:induction false} LowOfSmall(x: nat, n: nat, k: nat)
    requires x < Pow2(k)
    ensures Low(x, n + k) == Zeros(n) + Low(x, k)
  {
    if k > 0 {
      LowOfSmall(x / 2, n, k - 1);
    } else if n > 0 {
      LowOfSmall(0, n - 1, 0);
      assert Zeros(n) == Zeros(n - 1) + [false];
    }
  }

  lemma {:induction false} LowOfOr(a: nat, b: nat, n: nat, w: nat)
    requires n <= w
    ensures forall i :: 0 <= i < n ==> Low(Or(a, b, w), n)[i] == (Low(a, n)[i] || Low(b, n)[i])
  {
    if n > 0 {
      LowOfOr(a / 2, b / 2, n - 1, w - 1);
    }
  }

  /** Shifting x left by k and or-ing in a k-bit value appends that value's bits,
      whatever x holds above its n lowest bits. */
  lemma LowOfShiftedOr(x: uint64, n: nat, b: nat, k: nat)
    requires n + k <= 64 && b < Pow2(k)
    ensures Low(Or(Shl(x, k), b, 64), n + k) == Low(x, n) + Low(b, k)
  {
    Pow2Of64();
    ShlAsProduct(x, k);
    LowOfOr(Shl(x, k), b, n + k, 64);
    LowOfMod(x * Pow2(k), n + k, 64);
    LowOfMultiple(x, n, k);
    LowOfSmall(b, n, k);
  }

  /** A number below 2^n is determined by its n lowest bits. */
  lemma {:induction false} LowInjective(x: nat, y: nat, n: nat)
    requires x < Pow2(n) && y < Pow2(n) && Low(x, n) == Low(y, n)
    ensures x == y
  {
    if n > 0 {
      var u, v := Low(x / 2, n - 1), Low(y / 2, n - 1);
      assert Low(x, n)[..n - 1] == u && Low(y, n)[..n - 1] == v;
      assert Low(x, n)[n - 1] == (x % 2 == 1) && Low(y, n)[n - 1] == (y % 2 == 1);
      LowInjective(x / 2, y / 2, n - 1);
    }
  }

  // ---------------------------------------------------------------- bytes and their bits

  function ByteBits(b: Byte): (s: Bits)
    ensures |s| == 8
  {
    Low(b, 8)
  }

  function BitsOfBytes(bs: seq<Byte>): (s: Bits)
    ensures |s| == 8 * |bs|
  {
    if bs == [] then [] else ByteBits(bs[0]) + BitsOfBytes(bs[1..])
  }

  lemma {:induction false} BitsOfBytesConcat(a: seq<Byte>, b: seq<Byte>)
    ensures BitsOfBytes(a + b) == BitsOfBytes(a) + BitsOfBytes(b)
  {
    if a == [] {
      assert a + b == b;
    } else {
      assert (a + b)[1..] == a[1..] + b;
      BitsOfBytesConcat(a[1..], b);
    }
  }

  /** The n lowest bytes of x, most significant first. */
  function LowBytes(x: nat, n: nat): (s: seq<Byte>)
    ensures |s| == n
  {
    if n == 0 then [] else LowBytes(x / 256, n - 1) + [x % 256]
  }

  lemma {:induction false} LowBytesBits(x: nat, n: nat)
    ensures BitsOfBytes(LowBytes(x, n)) == Low(x, 8 * n)
  {
    if n > 0 {
      LowBytesBits(x / 256, n - 1);
      BitsOfBytesConcat(LowBytes(x / 256, n - 1), [x % 256]);
      assert [x % 256][1..] == [];
      Pow2Of8();
      LowSplit(x, 8 * (n - 1), 8);
      LowOfMod(x, 8, 8);
    }
  }

  /** The eight bytes of a word, most significant first. */
  function WordBytes(x: uint64): (s: seq<Byte>)
    ensures |s| == 8
  {
    LowBytes(x, 8)
  }

  lemma LowBytesStep(x: nat, y: nat, b: Byte, n: nat)
    requires y == x / 256 && b == x % 256
    ensures LowBytes(x, n + 1) == LowBytes(y, n) + [b]
  {
  }

  lemma WordBytesByShifts(x: uint64)
    ensures WordBytes(x) ==
      [x / 0x100_0000_0000_0000 % 256, x / 0x1_0000_0000_0000 % 256, x / 0x100_0000_0000 % 256,
       x / 0x1_0000_0000 % 256, x / 0x100_0000 % 256, x / 0x1_0000 % 256, x / 0x100 % 256, x % 256]
  {
    var x1 := x / 0x100;
    var x2, x3, x4 := x / 0x1_0000, x / 0x100_0000, x / 0x1_0000_0000;
    var x5, x6, x7 := x / 0x100_0000_0000, x / 0x1_0000_0000_0000, x / 0x100_0000_0000_0000;
    LowBytesStep(x7, 0, x7 % 256, 0);
    LowBytesStep(x6, x7, x6 % 256, 1);
    LowBytesStep(x5, x6, x5 % 256, 2);
    LowBytesStep(x4, x5, x4 % 256, 3);
    LowBytesStep(x3, x4, x3 % 256, 4);
    LowBytesStep(x2, x3, x2 % 256, 5);
    LowBytesStep(x1, x2, x1 % 256, 6);
    LowBytesStep(x, x1, x % 256, 7);
  }

  /** A word and its eight bytes hold the same 64 bits. */
  lemma WordBytesBits(x: uint64)
    ensures BitsOfBytes(WordBytes(x)) == Low(x, 64)
  {
    LowBytesBits(x, 8);
  }
}
