/** Mixed-radix numbers, most significant digit first: the order in which the colormap and the cells of
    the inverse colormap are listed (lib/jpegli/color_quantize.cc). */
module MixedRadix {
  /** The product of the radices from digit c on. */
  function ProductFrom(radix: seq<nat>, c: nat): nat
    requires c <= |radix|
    decreases |radix| - c
  {
    if c == |radix| then 1 else radix[c] * ProductFrom(radix, c + 1)
  }

  /** The number that the digits from c on denote. */
  function ValueFrom(digits: seq<nat>, radix: seq<nat>, c: nat): nat
    requires |digits| == |radix| && c <= |radix|
    decreases |radix| - c
  {
    if c == |radix| then 0 else digits[c] * ProductFrom(radix, c + 1) + ValueFrom(digits, radix, c + 1)
  }

  function Value(digits: seq<nat>, radix: seq<nat>): nat
    requires |digits| == |radix|
  {
    ValueFrom(digits, radix, 0)
  }

  ghost predicate DigitsBelow(digits: seq<nat>, radix: seq<nat>) {
    |digits| == |radix| && forall c :: 0 <= c < |radix| ==> digits[c] < radix[c]
  }

  lemma MulLess(d: nat, r: nat, p: nat, v: nat)
    requires d < r && v < p
    ensures d * p + v < r * p
  {
    assert (d + 1) * p <= r * p;
  }

  lemma QuotientUnique(a: nat, b: nat, p: nat, v: nat, w: nat)
    requires v < p && w < p && a * p + v == b * p + w
    ensures a == b && v == w
  {
    if a < b {
      MulLess(a, b, p, v);
    } else if b < a {
      MulLess(b, a, p, w);
    }
  }

  /** Digits below their radices denote a number below the product. */
  lemma {:induction false} ValueBelowProduct(digits: seq<nat>, radix: seq<nat>, c: nat)
    requires DigitsBelow(digits, radix) && c <= |radix|
    ensures ValueFrom(digits, radix, c) < ProductFrom(radix, c)
    decreases |radix| - c
  {
    if c < |radix| {
      ValueBelowProduct(digits, radix, c + 1);
      MulLess(digits[c], radix[c], ProductFrom(radix, c + 1), ValueFrom(digits, radix, c + 1));
    }
  }

  /** Each number has at most one digit string. */
  lemma {:induction false} DigitsUniqueFrom(a: seq<nat>, b: seq<nat>, radix: seq<nat>, c: nat)
    requires DigitsBelow(a, radix) && DigitsBelow(b, radix) && c <= |radix|
    requires ValueFrom(a, radix, c) == ValueFrom(b, radix, c)
    ensures a[c..] == b[c..]
    decreases |radix| - c
  {
    if c < |radix| {
      ValueBelowProduct(a, radix, c + 1);
      ValueBelowProduct(b, radix, c + 1);
      QuotientUnique(a[c], b[c], ProductFrom(radix, c + 1), ValueFrom(a, radix, c + 1), ValueFrom(b, radix, c + 1));
      DigitsUniqueFrom(a, b, radix, c + 1);
      assert a[c..] == [a[c]] + a[c + 1..] && b[c..] == [b[c]] + b[c + 1..];
    }
  }

  lemma DigitsUnique(a: seq<nat>, b: seq<nat>, radix: seq<nat>)
    requires DigitsBelow(a, radix) && DigitsBelow(b, radix) && Value(a, radix) == Value(b, radix)
    ensures a == b
  {
    DigitsUniqueFrom(a, b, radix, 0);
    assert a[0..] == a && b[0..] == b;
  }

  /** Digits before c do not matter to the value of the digits from c on. */
  lemma {:induction false} ValueFromAgrees(a: seq<nat>, b: seq<nat>, radix: seq<nat>, c: nat)
    requires |a| == |b| == |radix| && c <= |radix| && a[c..] == b[c..]
    ensures ValueFrom(a, radix, c) == ValueFrom(b, radix, c)
    decreases |radix| - c
  {
    if c < |radix| {
      assert a[c] == a[c..][0] && b[c] == b[c..][0];
      assert a[c + 1..] == a[c..][1..] && b[c + 1..] == b[c..][1..];
      ValueFromAgrees(a, b, radix, c + 1);
    }
  }

  /** Changing the digit c changes the value by so many strides. */
  lemma {:induction false} ChangeDigit(a: seq<nat>, b: seq<nat>, radix: seq<nat>, k: nat, c: nat)
    requires |a| == |b| == |radix| && c <= k < |radix| && b == a[k := b[k]]
    ensures ValueFrom(b, radix, c) == ValueFrom(a, radix, c) + (b[k] - a[k]) * ProductFrom(radix, k + 1)
    decreases k - c
  {
    if c < k {
      ChangeDigit(a, b, radix, k, c + 1);
    } else {
      ValueFromAgrees(a, b, radix, k + 1);
      Factor(a[k], b[k], ProductFrom(radix, k + 1));
    }
  }

  lemma Factor(a: int, b: int, p: int)
    ensures (b - a) * p == b * p - a * p
  {
  }

  lemma FullSuffix(r: nat, p: nat)
    requires r > 0
    ensures (0 - (r - 1)) * p + r * p == p
  {
  }

  /** The odometer step: full digits are reset from the right until one can be raised. */
  method Advance(digits: array<nat>, radix: seq<nat>)
    requires |radix| >= 1 && DigitsBelow(digits[..], radix)
    modifies digits
    ensures Value(digits[..], radix) == old(Value(digits[..], radix)) + 1
    ensures forall c :: 1 <= c < |radix| ==> digits[c] < radix[c]
    ensures digits[0] <= radix[0]
  {
    ghost var start := Value(digits[..], radix);
    var c := |radix| - 1;
    while c > 0 && digits[c] + 1 == radix[c]
      invariant 0 <= c < |radix| && DigitsBelow(digits[..], radix)
      invariant Value(digits[..], radix) + ProductFrom(radix, c + 1) == start + 1
    {
      ghost var before := digits[..];
      digits[c] := 0;
      ChangeDigit(before, digits[..], radix, c, 0);
      FullSuffix(radix[c], ProductFrom(radix, c + 1));
      c := c - 1;
    }
    ghost var before := digits[..];
    digits[c] := digits[c] + 1;
    ChangeDigit(before, digits[..], radix, c, 0);
  }

  /** A number short of the product leaves room in the leading digit. */
  lemma LeadingDigitInRange(digits: seq<nat>, radix: seq<nat>)
    requires |digits| == |radix| >= 1 && Value(digits, radix) < ProductFrom(radix, 0)
    requires forall c :: 1 <= c < |radix| ==> digits[c] < radix[c]
    ensures DigitsBelow(digits, radix)
  {
    if digits[0] >= radix[0] {
      MulMono(radix[0], digits[0], ProductFrom(radix, 1));
    }
  }

  lemma MulMono(a: nat, b: nat, p: nat)
    requires a <= b
    ensures a * p <= b * p
  {
  }
}
