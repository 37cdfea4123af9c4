/** The horizontal pass of tools/gauss_blur.cc: a row, four samples at a time where both inputs are inside it.
    It gives the outputs of the scalar recurrence. */
module HorizontalGaussian {
  import opened GaussianRecurrence

  // ---------------------------------------------------------------- one row

  /** The two previous outputs of one term, in all lanes. */
  datatype Memory = Memory(prev: Vec, prev2: Vec)

  /** Before output n, the lowest lanes hold outputs n - 1 and n - 2. */
  ghost predicate Holds(m: Memory, t: Term, row: seq<real>, N: nat, n: int) {
    m.prev.l0 == Response(t, row, N, n - 1) && m.prev2.l0 == Response(t, row, N, n - 2)
  }

  function Broadcast0(m: Memory): Memory {
    Memory(Splat(m.prev.l0), Splat(m.prev2.l0))
  }

  ghost predicate SameInAllLanes(m: Memory) {
    m == Broadcast0(m)
  }

  /** One output of one term. The higher lanes carry values that are never used. */
  function NextSingle(t: Term, sum: Vec, m: Memory): Memory {
    Memory(Single(t, sum, m.prev, m.prev2), m.prev)
  }

  lemma ResponseStep(t: Term, row: seq<real>, N: nat, n: int)
    requires n + N > 0
    ensures Response(t, row, N, n) == Step(t, Input(row, N, n), Response(t, row, N, n - 1), Response(t, row, N, n - 2))
  {
  }

  lemma SingleStep(t: Term, sum: Vec, m: Memory, row: seq<real>, N: nat, n: int)
    requires Holds(m, t, row, N, n) && sum.l0 == Input(row, N, n) && n + N > 0
    ensures Holds(NextSingle(t, sum, m), t, row, N, n + 1)
  {
    hide Single, Input;
    SingleIsStep(t, sum, m.prev, m.prev2);
  }

  /** Four outputs of one term. */
  ghost predicate IsFour(o: Vec, t: Term, row: seq<real>, N: nat, n: int) {
    && o.l0 == Response(t, row, N, n) && o.l1 == Response(t, row, N, n + 1)
    && o.l2 == Response(t, row, N, n + 2) && o.l3 == Response(t, row, N, n + 3)
  }

  lemma UnrolledStep(t: Term, sum: Vec, m: Memory, row: seq<real>, N: nat, n: int)
    requires Holds(m, t, row, N, n) && SameInAllLanes(m) && n + N > 0
    requires sum == Vec(Input(row, N, n), Input(row, N, n + 1), Input(row, N, n + 2), Input(row, N, n + 3))
    ensures var o := Unrolled(t, sum, m.prev, m.prev2);
            IsFour(o, t, row, N, n) && Holds(Memory(Splat(o.l3), Splat(o.l2)), t, row, N, n + 4)
  {
    hide Unrolled, Input, Step, Response;
    UnrolledIsFourSteps(t, sum, m.prev.l0, m.prev2.l0);
    ResponseStep(t, row, N, n);
    ResponseStep(t, row, N, n + 1);
    ResponseStep(t, row, N, n + 2);
    ResponseStep(t, row, N, n + 3);
  }

  /** The memories of the three terms. */
  datatype Memories = Memories(m1: Memory, m3: Memory, m5: Memory)

  ghost predicate AllHold(ms: Memories, f: Filter, row: seq<real>, n: int) {
    Holds(ms.m1, f.t1, row, f.radius, n) && Holds(ms.m3, f.t3, row, f.radius, n) && Holds(ms.m5, f.t5, row, f.radius, n)
  }

  lemma AtRest(f: Filter, row: seq<real>)
    requires f.radius >= 1
    ensures var z := Memory(Splat(0.0), Splat(0.0)); AllHold(Memories(z, z, z), f, row, 1 - f.radius)
  {
  }

  lemma BroadcastHolds(ms: Memories, f: Filter, row: seq<real>, n: int)
    requires AllHold(ms, f, row, n)
    ensures AllHold(Memories(Broadcast0(ms.m1), Broadcast0(ms.m3), Broadcast0(ms.m5)), f, row, n)
    ensures SameInAllLanes(Broadcast0(ms.m1)) && SameInAllLanes(Broadcast0(ms.m3)) && SameInAllLanes(Broadcast0(ms.m5))
  {
    hide Response;
  }

  method SingleOutput(f: Filter, row: seq<real>, n: int, ms: Memories) returns (out: real, next: Memories)
    requires f.radius >= 1 && 1 - f.radius <= n < |row| && AllHold(ms, f, row, n)
    ensures out == Output(f, row, n) && AllHold(next, f, row, n + 1)
  {
    hide Single, Response;
    var left, right := n - f.radius - 1, n + f.radius - 1;
    var leftVal := if left >= 0 then row[left] else 0.0;
    var rightVal := if right < |row| then row[right] else 0.0;
    var sum := Splat(leftVal + rightVal);
    SingleStep(f.t1, sum, ms.m1, row, f.radius, n);
    SingleStep(f.t3, sum, ms.m3, row, f.radius, n);
    SingleStep(f.t5, sum, ms.m5, row, f.radius, n);
    next := Memories(NextSingle(f.t1, sum, ms.m1), NextSingle(f.t3, sum, ms.m3), NextSingle(f.t5, sum, ms.m5));
    out := Add(next.m1.prev, Add(next.m3.prev, next.m5.prev)).l0;
  }

  method FourOutputs(f: Filter, row: seq<real>, n: int, ms: Memories) returns (out: Vec, next: Memories)
    requires f.radius >= 1 && f.radius + 1 <= n && n + 3 + f.radius - 1 < |row| && AllHold(ms, f, row, n)
    requires SameInAllLanes(ms.m1) && SameInAllLanes(ms.m3) && SameInAllLanes(ms.m5)
    ensures out == Vec(Output(f, row, n), Output(f, row, n + 1), Output(f, row, n + 2), Output(f, row, n + 3))
    ensures AllHold(next, f, row, n + 4)
    ensures SameInAllLanes(next.m1) && SameInAllLanes(next.m3) && SameInAllLanes(next.m5)
  {
    hide Unrolled, Response, Holds;
    var left, right := n - f.radius - 1, n + f.radius - 1;
    var sum := Add(Vec(row[left], row[left + 1], row[left + 2], row[left + 3]),
                   Vec(row[right], row[right + 1], row[right + 2], row[right + 3]));
    UnrolledStep(f.t1, sum, ms.m1, row, f.radius, n);
    UnrolledStep(f.t3, sum, ms.m3, row, f.radius, n);
    UnrolledStep(f.t5, sum, ms.m5, row, f.radius, n);
    var o1, o3, o5 := Unrolled(f.t1, sum, ms.m1.prev, ms.m1.prev2), Unrolled(f.t3, sum, ms.m3.prev, ms.m3.prev2),
                      Unrolled(f.t5, sum, ms.m5.prev, ms.m5.prev2);
    next := Memories(Memory(Splat(o1.l3), Splat(o1.l2)), Memory(Splat(o3.l3), Splat(o3.l2)), Memory(Splat(o5.l3), Splat(o5.l2)));
    out := Add(o1, Add(o3, o5));
  }

  function RoundUpTo4(x: nat): nat {
    (x + 3) / 4 * 4
  }

  /** One row: outputs near the ends one at a time, the others four at a time. */
  method FastGaussian1D(f: Filter, row: seq<real>, out: array<real>)
    requires f.radius >= 1 && out.Length >= |row|
    modifies out
    ensures forall k :: 0 <= k < |row| ==> out[k] == Output(f, row, k)
    ensures forall k :: |row| <= k < out.Length ==> out[k] == old(out[k])
  {
    hide Output, AllHold, SameInAllLanes;
    var xsize, N := |row|, f.radius;
    var ms := Memories(Memory(Splat(0.0), Splat(0.0)), Memory(Splat(0.0), Splat(0.0)), Memory(Splat(0.0), Splat(0.0)));
    AtRest(f, row);
    var n := 1 - N;
    var firstAligned := RoundUpTo4(N + 1);
    while n < firstAligned && n < xsize
      invariant 1 - N <= n && (n <= 0 || n <= xsize) && n <= firstAligned && AllHold(ms, f, row, n)
      invariant forall k :: 0 <= k < n ==> out[k] == Output(f, row, k)
      invariant forall k :: |row| <= k < out.Length ==> out[k] == old(out[k])
    {
      var o;
      o, ms := SingleOutput(f, row, n, ms);
      if n >= 0 {
        out[n] := o;
      }
      n := n + 1;
    }
    BroadcastHolds(ms, f, row, n);
    ms := Memories(Broadcast0(ms.m1), Broadcast0(ms.m3), Broadcast0(ms.m5));
    while n < xsize - N + 1 - 3
      invariant n >= 0 && (n <= xsize) && (n < xsize ==> n >= N + 1) && AllHold(ms, f, row, n)
      invariant SameInAllLanes(ms.m1) && SameInAllLanes(ms.m3) && SameInAllLanes(ms.m5)
      invariant forall k :: 0 <= k < n ==> out[k] == Output(f, row, k)
      invariant forall k :: |row| <= k < out.Length ==> out[k] == old(out[k])
    {
      var o;
      o, ms := FourOutputs(f, row, n, ms);
      out[n], out[n + 1], out[n + 2], out[n + 3] := o.l0, o.l1, o.l2, o.l3;
      n := n + 4;
    }
    while n < xsize
      invariant 0 <= n <= xsize && AllHold(ms, f, row, n)
      invariant forall k :: 0 <= k < n ==> out[k] == Output(f, row, k)
      invariant forall k :: |row| <= k < out.Length ==> out[k] == old(out[k])
    {
      var o;
      o, ms := SingleOutput(f, row, n, ms);
      out[n] := o;
      n := n + 1;
    }
  }
}
