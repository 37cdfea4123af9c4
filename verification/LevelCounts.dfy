/** How the one-pass quantizer divides the desired number of colours among the components
    (lib/jpegli/color_quantize.cc). */
module LevelCounts {
  import opened MixedRadix
  import opened OnePassColors

  /** Green is raised first when there are three components. */
  function ComponentOrder(components: nat, i: nat): (c: nat)
    requires i < components
    ensures c < components
  {
    if components == 3 then (if i < 2 then 1 - i else i) else i
  }

  /** A choice of level counts that uses the desired number of colours as far as raising one count can. */
  ghost predicate Grown(numColors: seq<nat>, desired: int) {
    && (forall c :: 0 <= c < |numColors| ==> numColors[c] >= 2)
    && ProductFrom(numColors, 0) <= desired
    && (forall c :: 0 <= c < |numColors| ==> Raised(numColors, c) > desired)
  }

  /** The largest base whose power still fits. */
  ghost predicate LargestBase(base: nat, components: nat, desired: int) {
    Pow(base, components) <= desired < Pow(base + 1, components)
  }

  /** Of three components green never has fewer levels than red, nor red than blue; otherwise no component has more
      than one before it. */
  ghost predicate InOrder(counts: seq<nat>) {
    if |counts| == 3 then counts[2] <= counts[0] <= counts[1]
    else forall j :: 0 < j < |counts| ==> counts[j] <= counts[j - 1]
  }

  method LargestEqualCount(components: nat, desired: int) returns (num: nat)
    requires components >= 1
    ensures num >= 1 && desired < Pow(num + 1, components)
    ensures num == 1 || Pow(num, components) <= desired
  {
    num := 1;
    var next := IntPow(num + 1, components);
    while next <= desired
      invariant num >= 1 && next == Pow(num + 1, components)
      invariant num == 1 || Pow(num, components) <= desired
      decreases desired - num
    {
      PowAtLeastBase(num + 1, components);
      num := num + 1;
      next := IntPow(num + 1, components);
    }
  }

  /** Just before component number i is considered: it is behind the one before it, which is the case when
      that one has just been raised, or that one could not be raised. */
  ghost predicate Considered(counts: seq<nat>, i: nat, desired: int) {
    0 < i < |counts| ==>
      var last, next := ComponentOrder(|counts|, i - 1), ComponentOrder(|counts|, i);
      counts[next] < counts[last] || Raised(counts, last) > desired
  }

  lemma RaiseKeepsOrder(counts: seq<nat>, i: nat, desired: int)
    requires forall c :: 0 <= c < |counts| ==> counts[c] >= 2
    requires InOrder(counts) && i < |counts| && Considered(counts, i, desired)
    requires Raised(counts, ComponentOrder(|counts|, i)) <= desired
    ensures var c := ComponentOrder(|counts|, i);
            var after := counts[c := counts[c] + 1];
            InOrder(after) && Considered(after, i + 1, desired)
  {
    hide Raised, ProductFrom;
    var c := ComponentOrder(|counts|, i);
    var after := counts[c := counts[c] + 1];
    RaisedProduct(counts, c);
    if i > 0 {
      RaisedProduct(counts, ComponentOrder(|counts|, i - 1));
    }
  }

  /** One pass over the components, in order, raising every count that still fits. */
  method RaiseOnce(numColors: array<nat>, actual: nat, desired: nat) returns (raised: nat)
    requires ProductFrom(numColors[..], 0) == actual <= desired
    requires forall c :: 0 <= c < numColors.Length ==> numColors[c] >= 2
    requires InOrder(numColors[..])
    modifies numColors
    ensures InOrder(numColors[..])
    ensures ProductFrom(numColors[..], 0) == raised && actual <= raised <= desired
    ensures forall c :: 0 <= c < numColors.Length ==> numColors[c] >= old(numColors[c])
    ensures raised == actual ==> forall c :: 0 <= c < numColors.Length ==> Raised(numColors[..], c) > desired
  {
    hide ProductFrom, InOrder;
    raised := actual;
    ProductPositive(numColors[..], 0);
    for i := 0 to numColors.Length
      invariant ProductFrom(numColors[..], 0) == raised && 0 < actual <= raised <= desired
      invariant forall c :: 0 <= c < numColors.Length ==> numColors[c] >= old(numColors[c])
      invariant InOrder(numColors[..]) && Considered(numColors[..], i, desired)
      invariant raised == actual ==>
        forall j :: 0 <= j < i ==> Raised(numColors[..], ComponentOrder(numColors.Length, j)) > desired
    {
      var c := ComponentOrder(numColors.Length, i);
      RaisedProduct(numColors[..], c);
      var newTotal := raised / numColors[c] * (numColors[c] + 1);
      if newTotal <= desired {
        ghost var before := numColors[..];
        RaiseKeepsOrder(before, i, desired);
        numColors[c] := numColors[c] + 1;
        assert numColors[..] == before[c := before[c] + 1];
        raised := newTotal;
      }
    }
    forall c | raised == actual && 0 <= c < numColors.Length
      ensures Raised(numColors[..], c) > desired
    {
      assert ComponentOrder(numColors.Length, ComponentOrder(numColors.Length, c)) == c;
    }
  }

  lemma {:induction false} ProductPositive(radix: seq<nat>, c: nat)
    requires c <= |radix| && forall k :: 0 <= k < |radix| ==> radix[k] >= 1
    ensures 1 <= ProductFrom(radix, c) <= ProductFrom(radix, 0)
    decreases c
  {
    if c > 0 {
      ProductPositive(radix, c - 1);
      FactorPositive(radix[c - 1], ProductFrom(radix, c));
    } else {
      ProductAtLeastOne(radix, 0);
    }
  }

  lemma {:induction false} ProductAtLeastOne(radix: seq<nat>, c: nat)
    requires c <= |radix| && forall k :: 0 <= k < |radix| ==> radix[k] >= 1
    ensures ProductFrom(radix, c) >= 1
    decreases |radix| - c
  {
    if c < |radix| {
      ProductAtLeastOne(radix, c + 1);
    }
  }

  lemma FactorPositive(a: nat, p: nat)
    requires a * p >= 1
    ensures 1 <= p <= a * p
  {
  }

  /** The number of levels of each component; fails when not even two levels each would fit. */
  method ChooseNumColors(components: nat, desired: int) returns (ok: bool, counts: seq<nat>)
    requires 1 <= components
    ensures ok <==> Pow(2, components) <= desired
    ensures ok ==> |counts| == components && Grown(counts, desired)
    ensures ok ==> exists base :: LargestBase(base, components, desired) && forall c :: 0 <= c < components ==> base <= counts[c]
    ensures ok ==> InOrder(counts)
  {
    var num := LargestEqualCount(components, desired);
    if num == 1 {
      return false, [];
    }
    PowMono(2, num, components);
    var actual := IntPow(num, components);
    var numColors := new nat[components](_ => num);
    assert forall c :: 0 <= c < components ==> numColors[..][c] == num;
    ProductOfEqual(numColors[..], num, 0);
    while actual < desired
      invariant ProductFrom(numColors[..], 0) == actual <= desired
      invariant forall c :: 0 <= c < components ==> numColors[c] >= num
      invariant InOrder(numColors[..])
      decreases desired - actual
    {
      var total := actual;
      actual := RaiseOnce(numColors, actual, desired);
      if actual == total {
        break;
      }
    }
    assert LargestBase(num, components, desired);
    ok, counts := true, numColors[..];
    forall c | 0 <= c < components
      ensures Raised(counts, c) > desired
    {
      ProductPositive(counts, 0);
      RaisedProduct(counts, c);
    }
  }
}
