/** The recursive Gaussian of tools/gauss_blur.cc over exact numbers: the scalar recurrence, and its
    expansion for four outputs at a time. */
module GaussianRecurrence {
  /** The coefficients of one of the three terms. */
  datatype Term = Term(n2: real, d1: real)

  datatype Filter = Filter(radius: nat, t1: Term, t3: Term, t5: Term)

  /** Samples outside the row count as zero. */
  function Sample(row: seq<real>, i: int): real {
    if 0 <= i < |row| then row[i] else 0.0
  }

  /** The two samples that output n depends on. */
  function Input(row: seq<real>, N: nat, n: int): real {
    Sample(row, n - N - 1) + Sample(row, n + N - 1)
  }

  /** The recurrence of one term: it starts at rest, N outputs before the first. */
  function Response(t: Term, row: seq<real>, N: nat, n: int): real
    decreases n + N
  {
    if n + N <= 0 then 0.0
    else t.n2 * Input(row, N, n) - t.d1 * Response(t, row, N, n - 1) - Response(t, row, N, n - 2)
  }

  /** The output: the sum of the three terms. */
  function Output(f: Filter, row: seq<real>, n: int): real {
    Response(f.t1, row, f.radius, n) + (Response(f.t3, row, f.radius, n) + Response(f.t5, row, f.radius, n))
  }

  // ---------------------------------------------------------------- vectors of four lanes

  datatype Vec = Vec(l0: real, l1: real, l2: real, l3: real)

  function Splat(x: real): Vec {
    Vec(x, x, x, x)
  }

  function Add(a: Vec, b: Vec): Vec {
    Vec(a.l0 + b.l0, a.l1 + b.l1, a.l2 + b.l2, a.l3 + b.l3)
  }

  /** A product whose value does not matter in proofs about lanes. */
  function Times(a: real, b: real): real {
    a * b
  }

  function Mul(a: Vec, b: Vec): Vec {
    Vec(Times(a.l0, b.l0), Times(a.l1, b.l1), Times(a.l2, b.l2), Times(a.l3, b.l3))
  }

  function MulAdd(a: Vec, b: Vec, c: Vec): Vec {
    Add(Mul(a, b), c)
  }

  /** Lanes move towards the higher ones; zeros enter. */
  function ShiftLeft1(a: Vec): Vec { Vec(0.0, a.l0, a.l1, a.l2) }
  function ShiftLeft2(a: Vec): Vec { Vec(0.0, 0.0, a.l0, a.l1) }
  function ShiftLeft3(a: Vec): Vec { Vec(0.0, 0.0, 0.0, a.l0) }

  // ---------------------------------------------------------------- the expanded coefficients

  /** The coefficients of lane k for the last output, the one before it, and the first input. */
  function Prev(d: real, k: nat): real {
    var d2 := d * d;
    if k == 0 then -d else if k == 1 then d2 - 1.0 else if k == 2 then -d2 * d + 2.0 * d else d2 * d2 - 3.0 * d2 + 1.0
  }

  function Prev2(d: real, k: nat): real {
    var d2 := d * d;
    if k == 0 then -1.0 else if k == 1 then d else if k == 2 then -d2 + 1.0 else d2 * d - 2.0 * d
  }

  function In(n: real, d: real, k: nat): real {
    var d2 := d * d;
    if k == 0 then n else if k == 1 then -d * n else if k == 2 then d2 * n - n else -d2 * d * n + 2.0 * d * n
  }

  function MulPrev(t: Term): Vec {
    Vec(Prev(t.d1, 0), Prev(t.d1, 1), Prev(t.d1, 2), Prev(t.d1, 3))
  }

  function MulPrev2(t: Term): Vec {
    Vec(Prev2(t.d1, 0), Prev2(t.d1, 1), Prev2(t.d1, 2), Prev2(t.d1, 3))
  }

  function MulIn(t: Term): Vec {
    Vec(In(t.n2, t.d1, 0), In(t.n2, t.d1, 1), In(t.n2, t.d1, 2), In(t.n2, t.d1, 3))
  }

  /** One step of the recurrence from its input and the two outputs before it. */
  function Step(t: Term, input: real, prev: real, prev2: real): real {
    t.n2 * input - t.d1 * prev - prev2
  }

  /** What the vector code computes for one term: four inputs, two previous outputs. */
  function Unrolled(t: Term, sum: Vec, prev: Vec, prev2: Vec): Vec {
    var out0 := Mul(Splat(sum.l0), MulIn(t));
    var out1 := MulAdd(ShiftLeft1(MulIn(t)), Splat(sum.l1), out0);
    var out2 := MulAdd(ShiftLeft2(MulIn(t)), Splat(sum.l2), out1);
    var out3 := MulAdd(ShiftLeft3(MulIn(t)), Splat(sum.l3), out2);
    MulAdd(MulPrev(t), prev, MulAdd(MulPrev2(t), prev2, out3))
  }

  /** And for one output at a time, where only the lowest lane is meant. */
  function Single(t: Term, sum: Vec, prev: Vec, prev2: Vec): Vec {
    MulAdd(MulPrev(t), prev, MulAdd(MulPrev2(t), prev2, Mul(sum, MulIn(t))))
  }

  lemma SingleIsStep(t: Term, sum: Vec, prev: Vec, prev2: Vec)
    ensures Single(t, sum, prev, prev2).l0 == Step(t, sum.l0, prev.l0, prev2.l0)
  {
  }

  lemma Distribute(a: real, x: real, y: real, z: real, w: real)
    ensures a * (x + y + z + w) == a * x + a * y + a * z + a * w
  {
  }

  /** Outputs in terms of the inputs and the two previous outputs. */
  function First(n: real, d: real, i0: real, p: real, pp: real): real {
    Times(Prev(d, 0), p) + (Times(Prev2(d, 0), pp) + Times(In(n, d, 0), i0))
  }

  function Second(n: real, d: real, i0: real, i1: real, p: real, pp: real): real {
    Times(Prev(d, 1), p) + (Times(Prev2(d, 1), pp) + (Times(In(n, d, 0), i1) + Times(In(n, d, 1), i0)))
  }

  function Third(n: real, d: real, i0: real, i1: real, i2: real, p: real, pp: real): real {
    Times(Prev(d, 2), p) + (Times(Prev2(d, 2), pp) + (Times(In(n, d, 0), i2) + Times(In(n, d, 1), i1) + Times(In(n, d, 2), i0)))
  }

  function Fourth(n: real, d: real, i0: real, i1: real, i2: real, i3: real, p: real, pp: real): real {
    Times(Prev(d, 3), p)
    + (Times(Prev2(d, 3), pp) + (Times(In(n, d, 0), i3) + Times(In(n, d, 1), i2) + Times(In(n, d, 2), i1) + Times(In(n, d, 3), i0)))
  }

  lemma FirstOutput(n: real, d: real, i0: real, p: real, pp: real)
    ensures First(n, d, i0, p, pp) == n * i0 - d * p - pp
  {
  }

  lemma SecondOutput(n: real, d: real, i0: real, i1: real, p: real, pp: real)
    ensures Second(n, d, i0, i1, p, pp) == n * i1 - d * First(n, d, i0, p, pp) - p
  {
    Distribute(d, -d * p, -1.0 * pp, n * i0, 0.0);
    Distribute(p, d * d, -1.0, 0.0, 0.0);
  }

  lemma ThirdOutput(n: real, d: real, i0: real, i1: real, i2: real, p: real, pp: real)
    ensures Third(n, d, i0, i1, i2, p, pp) == n * i2 - d * Second(n, d, i0, i1, p, pp) - First(n, d, i0, p, pp)
  {
    Distribute(d, (d * d - 1.0) * p, d * pp, n * i1, (-d * n) * i0);
    Distribute(d * p, d * d, -1.0, 0.0, 0.0);
    Distribute(p, -(d * d) * d, 2.0 * d, 0.0, 0.0);
    Distribute(pp, -(d * d), 1.0, 0.0, 0.0);
    Distribute(i0, d * d * n, -n, 0.0, 0.0);
    assert d * ((d * d - 1.0) * p) == (d * p) * (d * d + -1.0);
  }

  lemma FourthOutput(n: real, d: real, i0: real, i1: real, i2: real, i3: real, p: real, pp: real)
    ensures Fourth(n, d, i0, i1, i2, i3, p, pp) == n * i3 - d * Third(n, d, i0, i1, i2, p, pp) - Second(n, d, i0, i1, p, pp)
  {
    Distribute(d, (-(d * d) * d + 2.0 * d) * p, (-(d * d) + 1.0) * pp, n * i2 + (-d * n) * i1, (d * d * n - n) * i0);
    Distribute(d, n * i2, (-d * n) * i1, 0.0, 0.0);
    Distribute(d * p, -(d * d) * d, 2.0 * d, 0.0, 0.0);
    Distribute(d * pp, -(d * d), 1.0, 0.0, 0.0);
    Distribute(d * i0, d * d * n, -n, 0.0, 0.0);
    Distribute(p, d * d * (d * d), -(3.0 * (d * d)), 1.0, 0.0);
    Distribute(p, d * d, -1.0, 0.0, 0.0);
    Distribute(pp, d * d * d, -(2.0 * d), 0.0, 0.0);
    Distribute(i1, d * d * n, -n, 0.0, 0.0);
    Distribute(i0, -(d * d) * d * n, 2.0 * d * n, 0.0, 0.0);
    assert d * ((-(d * d) * d + 2.0 * d) * p) == (d * p) * (-(d * d) * d + 2.0 * d);
    assert d * ((-(d * d) + 1.0) * pp) == (d * pp) * (-(d * d) + 1.0);
    assert d * ((d * d * n - n) * i0) == (d * i0) * (d * d * n + -n);
  }

  lemma Commutes(a: real, b: real)
    ensures Times(a, b) == Times(b, a)
  {
  }

  lemma TimesZero(x: real)
    ensures Times(0.0, x) == 0.0
  {
  }

  /** The four products of the inputs, lane by lane. */
  lemma InputLanes(mi: Vec, i: Vec)
    ensures var o := MulAdd(ShiftLeft3(mi), Splat(i.l3), MulAdd(ShiftLeft2(mi), Splat(i.l2), MulAdd(ShiftLeft1(mi), Splat(i.l1), Mul(Splat(i.l0), mi))));
            && o.l0 == Times(mi.l0, i.l0)
            && o.l1 == Times(mi.l0, i.l1) + Times(mi.l1, i.l0)
            && o.l2 == Times(mi.l0, i.l2) + Times(mi.l1, i.l1) + Times(mi.l2, i.l0)
            && o.l3 == Times(mi.l0, i.l3) + Times(mi.l1, i.l2) + Times(mi.l2, i.l1) + Times(mi.l3, i.l0)
  {
    hide Times;
    TimesZero(i.l1);
    TimesZero(i.l2);
    TimesZero(i.l3);
    Commutes(i.l0, mi.l0);
    Commutes(i.l0, mi.l1);
    Commutes(i.l0, mi.l2);
    Commutes(i.l0, mi.l3);
  }

  /** The lanes of the vector code, written out. */
  lemma UnrolledLanes(t: Term, i: Vec, p: real, pp: real)
    ensures var o, mi, mp, mpp := Unrolled(t, i, Splat(p), Splat(pp)), MulIn(t), MulPrev(t), MulPrev2(t);
            && o.l0 == Times(mp.l0, p) + (Times(mpp.l0, pp) + Times(mi.l0, i.l0))
            && o.l1 == Times(mp.l1, p) + (Times(mpp.l1, pp) + (Times(mi.l0, i.l1) + Times(mi.l1, i.l0)))
            && o.l2 == Times(mp.l2, p) + (Times(mpp.l2, pp) + (Times(mi.l0, i.l2) + Times(mi.l1, i.l1) + Times(mi.l2, i.l0)))
            && o.l3 == Times(mp.l3, p) + (Times(mpp.l3, pp) + (Times(mi.l0, i.l3) + Times(mi.l1, i.l2) + Times(mi.l2, i.l1) + Times(mi.l3, i.l0)))
  {
    hide Times, MulIn, MulPrev, MulPrev2;
    InputLanes(MulIn(t), i);
  }

  /** With the coefficients of the source these are the four outputs. */
  lemma LanesAreOutputs(t: Term, i: Vec, p: real, pp: real)
    ensures var n, d, mi, mp, mpp := t.n2, t.d1, MulIn(t), MulPrev(t), MulPrev2(t);
      && Times(mp.l0, p) + (Times(mpp.l0, pp) + Times(mi.l0, i.l0)) == First(n, d, i.l0, p, pp)
      && Times(mp.l1, p) + (Times(mpp.l1, pp) + (Times(mi.l0, i.l1) + Times(mi.l1, i.l0))) == Second(n, d, i.l0, i.l1, p, pp)
      && Times(mp.l2, p) + (Times(mpp.l2, pp) + (Times(mi.l0, i.l2) + Times(mi.l1, i.l1) + Times(mi.l2, i.l0)))
         == Third(n, d, i.l0, i.l1, i.l2, p, pp)
      && Times(mp.l3, p) + (Times(mpp.l3, pp) + (Times(mi.l0, i.l3) + Times(mi.l1, i.l2) + Times(mi.l2, i.l1) + Times(mi.l3, i.l0)))
         == Fourth(n, d, i.l0, i.l1, i.l2, i.l3, p, pp)
  {
    hide Times, Prev, Prev2, In;
  }

  /** The expansion is exact: lane k is the recurrence applied k + 1 times. */
  lemma UnrolledIsFourSteps(t: Term, sum: Vec, p: real, pp: real)
    ensures var o := Unrolled(t, sum, Splat(p), Splat(pp));
            && o.l0 == Step(t, sum.l0, p, pp)
            && o.l1 == Step(t, sum.l1, o.l0, p)
            && o.l2 == Step(t, sum.l2, o.l1, o.l0)
            && o.l3 == Step(t, sum.l3, o.l2, o.l1)
  {
    hide Unrolled, Times, MulIn, MulPrev, MulPrev2, First, Second, Third, Fourth;
    UnrolledLanes(t, sum, p, pp);
    LanesAreOutputs(t, sum, p, pp);
    FirstOutput(t.n2, t.d1, sum.l0, p, pp);
    SecondOutput(t.n2, t.d1, sum.l0, sum.l1, p, pp);
    ThirdOutput(t.n2, t.d1, sum.l0, sum.l1, sum.l2, p, pp);
    FourthOutput(t.n2, t.d1, sum.l0, sum.l1, sum.l2, sum.l3, p, pp);
  }
}
