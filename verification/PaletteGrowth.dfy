/** The main loop of the two-pass quantizer (lib/jpegli/color_quantize.cc): a bucket queue whose keys may be
    out of date chooses the same colours as a search for the largest priority at every step. */
module PaletteGrowth {
  import opened Arithmetic
  import opened RgbColors
  import opened Palette

  /** The colours of the image and what their priorities are computed from. */
  datatype Histogram = Histogram(colors: seq<Rgb>, count: seq<nat>, density: seq<seq<int>>, radius: seq<seq<nat>>) {
    ghost predicate Valid() {
      && |colors| == |count| == |density| == |radius|
      && (forall a, b :: 0 <= a < b < |colors| ==> colors[a] != colors[b])
      && (forall i :: 0 <= i < |colors| ==> |density[i]| == |radius[i]| == MAX_LEVEL)
      && (forall i, l :: 0 <= i < |colors| && 0 <= l < MAX_LEVEL ==> density[i][l] >= 0)
    }

    function PriorityAt(i: nat, d: nat): int
      requires i < |colors| == |count| == |density| == |radius| && |density[i]| == |radius[i]| == MAX_LEVEL
    {
      Priority(ScaleQuadDistance(d), count[i], density[i], radius[i])
    }

    /** The priority of a colour for the palette as it is. */
    ghost function Current(palette: seq<nat>, i: nat): int
      requires Valid() && Indices(palette, |colors|) && i < |colors|
    {
      PriorityAt(i, Nearest(colors, palette, i))
    }
  }

  /** Colour i is outside the palette, and no colour outside it has a larger priority. */
  ghost predicate GreedyChoice(h: Histogram, palette: seq<nat>, i: nat)
    requires h.Valid() && Indices(palette, |h.colors|)
  {
    && i < |h.colors| && i !in palette
    && (forall j :: 0 <= j < |h.colors| && j !in palette ==> h.Current(palette, j) <= h.Current(palette, i))
  }

  /** Every entry from number k on was such a choice when it was added. */
  ghost predicate GreedyFrom(h: Histogram, palette: seq<nat>, k: nat)
    requires h.Valid() && Indices(palette, |h.colors|)
  {
    forall t :: k <= t < |palette| ==> GreedyChoice(h, palette[..t], palette[t])
  }

  /** A palette that grows keeps its priorities below what they were. */
  lemma PriorityFalls(h: Histogram, palette: seq<nat>, i: nat, j: nat)
    requires h.Valid() && Indices(palette, |h.colors|) && i < |h.colors| && j < |h.colors|
    ensures h.Current(palette + [i], j) <= h.Current(palette, j)
  {
    hide Nearest, Priority, IsScaled;
    NearestShrinks(h.colors, palette, i, j);
    var d, e := Nearest(h.colors, palette + [i], j), Nearest(h.colors, palette, j);
    ScaledMonotone(d, e, ScaleQuadDistance(d), ScaleQuadDistance(e));
    PriorityMonotone(ScaleQuadDistance(d), ScaleQuadDistance(e), h.count[j], h.density[j], h.radius[j]);
  }

  lemma PriorityInRange(h: Histogram, i: nat, d: nat)
    requires h.Valid() && i < |h.colors|
    ensures 0 <= h.PriorityAt(i, d) < MAX_PRIORITY
  {
    hide Priority, ScaleQuadDistance;
    PriorityMonotone(ScaleQuadDistance(d), ScaleQuadDistance(d), h.count[i], h.density[i], h.radius[i]);
  }

  // ---------------------------------------------------------------- the bucket queue

  ghost predicate Distinct(s: seq<nat>) {
    forall i, j :: 0 <= i < j < |s| ==> s[i] != s[j]
  }

  /** Colour j is queued, in the bucket of its stored key only; the key is never below the current priority. */
  ghost predicate Stored(h: Histogram, palette: seq<nat>, buckets: seq<seq<nat>>, key: seq<nat>, j: nat)
    requires h.Valid() && Indices(palette, |h.colors|) && j < |h.colors| == |key|
  {
    && key[j] < |buckets| && j in buckets[key[j]] && h.Current(palette, j) <= key[j]
  }

  /** The queue holds exactly the colours outside the palette, each once, and nothing above `top`. */
  ghost predicate Queue(h: Histogram, palette: seq<nat>, buckets: seq<seq<nat>>, key: seq<nat>, top: int)
    requires h.Valid() && Indices(palette, |h.colors|)
  {
    && |buckets| == MAX_PRIORITY && |key| == |h.colors| && -1 <= top < MAX_PRIORITY
    && (forall j :: 0 <= j < |h.colors| && j !in palette ==> Stored(h, palette, buckets, key, j))
    && (forall b, x :: 0 <= b < |buckets| && 0 <= x < |buckets[b]| ==> InBucket(h, palette, buckets[b][x], key, b))
    && (forall b :: 0 <= b < |buckets| ==> Distinct(buckets[b]))
    && (forall b :: top < b < |buckets| ==> buckets[b] == [])
  }

  ghost predicate InBucket(h: Histogram, palette: seq<nat>, i: nat, key: seq<nat>, b: nat)
    requires |key| == |h.colors|
  {
    i < |h.colors| && i !in palette && key[i] == b
  }

  /** The keys of the colours outside the palette are their current priorities. */
  ghost predicate UpToDate(h: Histogram, palette: seq<nat>, key: seq<nat>)
    requires h.Valid() && Indices(palette, |h.colors|)
  {
    |key| == |h.colors| && forall j :: 0 <= j < |h.colors| && j !in palette ==> key[j] == h.Current(palette, j)
  }

  /** The colour at the end of the top bucket; its key can be out of date. */
  function Last(s: seq<nat>): nat
    requires s != []
  {
    s[|s| - 1]
  }

  /** When the key is up to date, the colour is a greedy choice: every other current priority is at most
      its own stored key, and that is at most the top key. */
  lemma TopIsGreedy(h: Histogram, palette: seq<nat>, buckets: seq<seq<nat>>, key: seq<nat>, top: int)
    requires h.Valid() && Indices(palette, |h.colors|) && Queue(h, palette, buckets, key, top)
    requires top >= 0 && buckets[top] != []
    requires h.Current(palette, Last(buckets[top])) >= top
    ensures GreedyChoice(h, palette, Last(buckets[top]))
  {
    var i := Last(buckets[top]);
    assert InBucket(h, palette, buckets[top][|buckets[top]| - 1], key, top);
    forall j | 0 <= j < |h.colors| && j !in palette
      ensures h.Current(palette, j) <= h.Current(palette, i)
    {
      assert Stored(h, palette, buckets, key, j);
    }
  }

  /** A colour whose key is out of date moves to the bucket of its current priority. */
  lemma Requeue(h: Histogram, palette: seq<nat>, buckets: seq<seq<nat>>, key: seq<nat>, top: int, p: nat) returns (key2: seq<nat>)
    requires h.Valid() && Indices(palette, |h.colors|) && Queue(h, palette, buckets, key, top)
    requires top >= 0 && buckets[top] != [] && h.Current(palette, Last(buckets[top])) == p < top
    ensures var i, n := Last(buckets[top]), |buckets[top]| - 1;
            i < |key| && key2 == key[i := p] && Queue(h, palette, buckets[p := buckets[p] + [i]][top := buckets[top][..n]], key2, top)
  {
    hide h.Current;
    var i, n := Last(buckets[top]), |buckets[top]| - 1;
    assert InBucket(h, palette, buckets[top][n], key, top);
    key2 := key[i := p];
    var next := buckets[p := buckets[p] + [i]][top := buckets[top][..n]];
    forall j | 0 <= j < |h.colors| && j !in palette
      ensures Stored(h, palette, next, key2, j)
    {
      assert Stored(h, palette, buckets, key, j);
      if j == i {
        assert next[p][|buckets[p]|] == i;
      } else if key[j] == p || key[j] == top {
        var x :| 0 <= x < |buckets[key[j]]| && buckets[key[j]][x] == j;
        assert next[key[j]][x] == j;
      }
    }
    forall b, x | 0 <= b < |next| && 0 <= x < |next[b]|
      ensures InBucket(h, palette, next[b][x], key2, b)
    {
      if b != p || x < |buckets[p]| {
        assert next[b][x] == buckets[b][x];
        assert InBucket(h, palette, buckets[b][x], key, b);
        assert b == top ==> buckets[top][x] != buckets[top][n];
      }
    }
    forall b | 0 <= b < |next|
      ensures Distinct(next[b])
    {
      assert Distinct(buckets[b]);
      if b == p {
        forall x | 0 <= x < |buckets[p]|
          ensures buckets[p][x] != i
        {
          assert InBucket(h, palette, buckets[p][x], key, p);
        }
      }
    }
  }

  /** A colour whose key is up to date leaves the queue for the palette. */
  lemma Take(h: Histogram, palette: seq<nat>, buckets: seq<seq<nat>>, key: seq<nat>, top: int)
    requires h.Valid() && Indices(palette, |h.colors|) && Queue(h, palette, buckets, key, top)
    requires top >= 0 && buckets[top] != []
    ensures var i, n := Last(buckets[top]), |buckets[top]| - 1;
            Indices(palette + [i], |h.colors|) && Queue(h, palette + [i], buckets[top := buckets[top][..n]], key, top)
  {
    hide h.Current;
    var i, n := Last(buckets[top]), |buckets[top]| - 1;
    assert InBucket(h, palette, buckets[top][n], key, top);
    var next, longer := buckets[top := buckets[top][..n]], palette + [i];
    forall j | 0 <= j < |h.colors| && j !in longer
      ensures Stored(h, longer, next, key, j)
    {
      assert longer[|palette|] == i;
      assert Stored(h, palette, buckets, key, j);
      PriorityFalls(h, palette, i, j);
      if key[j] == top {
        var x :| 0 <= x < |buckets[top]| && buckets[top][x] == j;
        assert next[top][x] == j;
      }
    }
    forall b, x | 0 <= b < |next| && 0 <= x < |next[b]|
      ensures InBucket(h, longer, next[b][x], key, b)
    {
      assert next[b][x] == buckets[b][x];
      assert InBucket(h, palette, buckets[b][x], key, b);
      assert b == top ==> buckets[top][x] != buckets[top][n];
    }
    forall b | 0 <= b < |next|
      ensures Distinct(next[b])
    {
      assert Distinct(buckets[b]);
    }
  }

  /** An empty queue: every colour is in the palette. */
  lemma EmptyQueue(h: Histogram, palette: seq<nat>, buckets: seq<seq<nat>>, key: seq<nat>)
    requires h.Valid() && Indices(palette, |h.colors|) && Queue(h, palette, buckets, key, -1)
    ensures forall j :: 0 <= j < |h.colors| ==> j in palette
  {
    forall j | 0 <= j < |h.colors|
      ensures j in palette
    {
      assert j !in palette ==> Stored(h, palette, buckets, key, j);
    }
  }

  /** The termination measure: the sum of key + 1 over all queue entries. */
  ghost function Weight(buckets: seq<seq<nat>>): nat {
    if buckets == [] then 0 else Weight(buckets[..|buckets| - 1]) + |buckets[|buckets| - 1]| * |buckets|
  }

  lemma {:induction false} WeightUpdate(buckets: seq<seq<nat>>, b: nat, s: seq<nat>)
    requires b < |buckets|
    ensures Weight(buckets[b := s]) == Weight(buckets) + (|s| - |buckets[b]|) * (b + 1)
  {
    var n, t := |buckets| - 1, buckets[b := s];
    if b < n {
      WeightUpdate(buckets[..n], b, s);
      assert t[..n] == buckets[..n][b := s];
    } else {
      assert t[..n] == buckets[..n];
      Spread(b + 1, |s|, |buckets[b]|);
    }
  }

  lemma TakingLowersWeight(buckets: seq<seq<nat>>, top: nat)
    requires top < |buckets| && buckets[top] != []
    ensures Weight(buckets[top := buckets[top][..|buckets[top]| - 1]]) == Weight(buckets) - (top + 1)
  {
    hide Weight;
    WeightUpdate(buckets, top, buckets[top][..|buckets[top]| - 1]);
    assert |buckets[top][..|buckets[top]| - 1]| - |buckets[top]| == -1;
  }

  lemma MovingLowersWeight(buckets: seq<seq<nat>>, top: nat, p: nat, i: nat)
    requires p < top < |buckets| && buckets[top] != []
    ensures Weight(buckets[p := buckets[p] + [i]][top := buckets[top][..|buckets[top]| - 1]]) < Weight(buckets)
  {
    hide Weight;
    WeightUpdate(buckets, p, buckets[p] + [i]);
    TakingLowersWeight(buckets[p := buckets[p] + [i]], top);
  }

  // ---------------------------------------------------------------- filling and emptying the queue

  /** The queue after the colours below k, all keys up to date. */
  ghost predicate Filled(h: Histogram, palette: seq<nat>, buckets: seq<seq<nat>>, key: seq<nat>, top: int, k: nat)
    requires h.Valid() && Indices(palette, |h.colors|) && k <= |h.colors|
  {
    && |buckets| == MAX_PRIORITY && |key| == |h.colors| && -1 <= top < MAX_PRIORITY
    && (forall j :: 0 <= j < k && j !in palette ==> Stored(h, palette, buckets, key, j) && key[j] == h.Current(palette, j))
    && (forall b, x :: 0 <= b < |buckets| && 0 <= x < |buckets[b]| ==>
          buckets[b][x] < k && InBucket(h, palette, buckets[b][x], key, b))
    && (forall b :: 0 <= b < |buckets| ==> Distinct(buckets[b]))
    && (forall b :: top < b < |buckets| ==> buckets[b] == [])
    && (top >= 0 ==> buckets[top] != [])
  }

  lemma Enqueue(h: Histogram, palette: seq<nat>, buckets: seq<seq<nat>>, key: seq<nat>, top: int, k: nat, p: nat)
      returns (key2: seq<nat>)
    requires h.Valid() && Indices(palette, |h.colors|) && k < |h.colors| && Filled(h, palette, buckets, key, top, k)
    requires k !in palette && p < MAX_PRIORITY && h.Current(palette, k) == p
    ensures Filled(h, palette, buckets[p := buckets[p] + [k]], key2, if top < p then p else top, k + 1)
  {
    hide h.Current;
    key2 := key[k := p];
    var next := buckets[p := buckets[p] + [k]];
    forall j | 0 <= j < k + 1 && j !in palette
      ensures Stored(h, palette, next, key2, j) && key2[j] == h.Current(palette, j)
    {
      if j < k {
        assert Stored(h, palette, buckets, key, j);
        var x :| 0 <= x < |buckets[key[j]]| && buckets[key[j]][x] == j;
        assert next[key[j]][x] == j;
      } else {
        assert next[p][|buckets[p]|] == k;
      }
    }
    forall b, x | 0 <= b < |next| && 0 <= x < |next[b]|
      ensures next[b][x] < k + 1 && InBucket(h, palette, next[b][x], key2, b)
    {
      if b != p || x < |buckets[p]| {
        assert next[b][x] == buckets[b][x];
        assert InBucket(h, palette, buckets[b][x], key, b);
      }
    }
    assert forall b :: 0 <= b < |next| ==> Distinct(buckets[b]);
  }

  method FillQueue(h: Histogram, ghost palette: seq<nat>, inPalette: array<bool>, dist: array<nat>, buckets: array<seq<nat>>)
    returns (top: int, ghost key: seq<nat>)
    requires h.Valid() && Indices(palette, |h.colors|) && inPalette.Length == dist.Length == |h.colors|
    requires buckets.Length == MAX_PRIORITY && forall b :: 0 <= b < MAX_PRIORITY ==> buckets[b] == []
    requires forall i :: 0 <= i < |h.colors| ==> (inPalette[i] <==> i in palette)
    requires forall i :: 0 <= i < |h.colors| ==> dist[i] == Nearest(h.colors, palette, i)
    modifies buckets
    ensures Queue(h, palette, buckets[..], key, top) && (top >= 0 ==> buckets[top] != []) && UpToDate(h, palette, key)
  {
    hide h.Valid, UpToDate, Stored, InBucket, Distinct, Nearest, Priority, ScaleQuadDistance;
    top := -1;
    key := seq(|h.colors|, i => 0);
    StartFilling(h, palette, buckets[..], key);
    for i := 0 to |h.colors|
      invariant Filled(h, palette, buckets[..], key, top, i)
    {
      hide Filled;
      if !inPalette[i] {
        PriorityDefined(h, i);
        var priority := PriorityOf(ScaleQuadDistance(dist[i]), h.count[i], h.density[i], h.radius[i]);
        PriorityInRange(h, i, dist[i]);
        key := Enqueue(h, palette, buckets[..], key, top, i, priority);
        ghost var before := buckets[..];
        buckets[priority] := buckets[priority] + [i];
        assert buckets[..] == before[priority := before[priority] + [i]];
        top := if top < priority then priority else top;
      } else {
        SkipEntry(h, palette, buckets[..], key, top, i);
      }
    }
    FilledIsQueue(h, palette, buckets[..], key, top);
  }

  lemma PriorityDefined(h: Histogram, i: nat)
    requires h.Valid() && i < |h.colors|
    ensures |h.count| == |h.density| == |h.radius| == |h.colors| && |h.density[i]| == |h.radius[i]| == MAX_LEVEL
  {
  }

  lemma StartFilling(h: Histogram, palette: seq<nat>, buckets: seq<seq<nat>>, key: seq<nat>)
    requires h.Valid() && Indices(palette, |h.colors|) && |key| == |h.colors|
    requires |buckets| == MAX_PRIORITY && forall b :: 0 <= b < MAX_PRIORITY ==> buckets[b] == []
    ensures Filled(h, palette, buckets, key, -1, 0)
  {
  }

  lemma SkipEntry(h: Histogram, palette: seq<nat>, buckets: seq<seq<nat>>, key: seq<nat>, top: int, k: nat)
    requires h.Valid() && Indices(palette, |h.colors|) && k < |h.colors| && Filled(h, palette, buckets, key, top, k)
    requires k in palette
    ensures Filled(h, palette, buckets, key, top, k + 1)
  {
    hide Stored, InBucket, Distinct;
  }

  lemma FilledIsQueue(h: Histogram, palette: seq<nat>, buckets: seq<seq<nat>>, key: seq<nat>, top: int)
    requires h.Valid() && Indices(palette, |h.colors|) && Filled(h, palette, buckets, key, top, |h.colors|)
    ensures Queue(h, palette, buckets, key, top) && (top >= 0 ==> buckets[top] != []) && UpToDate(h, palette, key)
  {
    hide Stored, InBucket, Distinct;
  }

  lemma GreedyExtends(h: Histogram, palette: seq<nat>, k: nat, i: nat)
    requires h.Valid() && Indices(palette, |h.colors|) && i < |h.colors|
    requires k <= |palette| && GreedyFrom(h, palette, k) && GreedyChoice(h, palette, i)
    ensures GreedyFrom(h, palette + [i], k)
  {
    hide GreedyChoice;
    var longer := palette + [i];
    forall t | k <= t < |longer|
      ensures GreedyChoice(h, longer[..t], longer[t])
    {
      assert longer[..t] == palette[..t];
      if t == |palette| {
        assert palette[..t] == palette;
      }
    }
  }

  method LowerTop(buckets: array<seq<nat>>, start: int) returns (top: int)
    requires -1 <= start < buckets.Length && forall b :: start < b < buckets.Length ==> buckets[b] == []
    ensures -1 <= top <= start && (top >= 0 ==> buckets[top] != [])
    ensures forall b :: top < b < buckets.Length ==> buckets[b] == []
  {
    top := start;
    while top >= 0 && buckets[top] == []
      invariant -1 <= top <= start && forall b :: top < b < buckets.Length ==> buckets[b] == []
    {
      top := top - 1;
    }
  }

  lemma QueueBelow(h: Histogram, palette: seq<nat>, buckets: seq<seq<nat>>, key: seq<nat>, start: int, top: int)
    requires h.Valid() && Indices(palette, |h.colors|) && Queue(h, palette, buckets, key, start)
    requires -1 <= top <= start && forall b :: top < b < |buckets| ==> buckets[b] == []
    ensures Queue(h, palette, buckets, key, top)
  {
    hide Stored, InBucket, Distinct;
  }

  // ---------------------------------------------------------------- the rounds

  /** The error of a palette: each pixel's distance to its nearest entry. */
  ghost function PaletteError(h: Histogram, palette: seq<nat>): nat
    requires |h.colors| == |h.count| && Indices(palette, |h.colors|)
  {
    ErrorSum(seq(|h.colors|, i requires 0 <= i < |h.colors| => Nearest(h.colors, palette, i)), h.count)
  }

  lemma ClusteredError(h: Histogram, palette: seq<nat>, dist: seq<nat>, cluster: seq<nat>)
    requires |h.colors| == |h.count| && Clustered(h.colors, palette, dist, cluster)
    ensures ErrorSum(dist, h.count) == PaletteError(h, palette)
    ensures forall i :: 0 <= i < |h.colors| ==> dist[i] == Nearest(h.colors, palette, i)
  {
    hide ErrorSum, Nearest, Distance;
    assert forall i :: 0 <= i < |h.colors| ==> Assigned(h.colors, palette, i, dist[i], cluster[i]);
    assert dist == seq(|h.colors|, i requires 0 <= i < |h.colors| => Nearest(h.colors, palette, i));
  }

  /** One round of the main loop: the palette and the keys before it, the colour that it looks at, and the error. */
  datatype Round = Round(palette: seq<nat>, key: seq<nat>, colour: nat, error: nat)

  /** A round takes a colour with the largest key. If the key is out of date it is brought up to date, otherwise the
      colour joins the palette. */
  ghost predicate Leads(h: Histogram, round: Round, palette: seq<nat>, key: seq<nat>)
    requires h.Valid()
  {
    var i := round.colour;
    && Indices(round.palette, |h.colors|) && i < |h.colors| == |round.key| && i !in round.palette
    && round.error == PaletteError(h, round.palette)
    && (forall j :: 0 <= j < |h.colors| && j !in round.palette ==> round.key[j] <= round.key[i])
    && |key| == |round.key|
    && (if h.Current(round.palette, i) < round.key[i]
        then palette == round.palette && key[i] == h.Current(round.palette, i) && key == round.key[i := key[i]]
        else palette == round.palette + [i] && key == round.key)
  }

  /** The rounds lead from the seeds, with all keys up to date, to this palette and these keys. */
  ghost predicate Rounds(h: Histogram, seeds: seq<nat>, rounds: seq<Round>, palette: seq<nat>, key: seq<nat>)
    requires h.Valid()
  {
    if rounds == [] then palette == seeds && Indices(palette, |h.colors|) && UpToDate(h, palette, key)
    else
      var n := |rounds| - 1;
      Rounds(h, seeds, rounds[..n], rounds[n].palette, rounds[n].key) && Leads(h, rounds[n], palette, key)
  }

  lemma OneMoreRound(h: Histogram, seeds: seq<nat>, rounds: seq<Round>, round: Round, palette: seq<nat>, key: seq<nat>)
    requires h.Valid() && Rounds(h, seeds, rounds, round.palette, round.key) && Leads(h, round, palette, key)
    ensures Rounds(h, seeds, rounds + [round], palette, key)
  {
    hide Leads;
    assert (rounds + [round])[..|rounds|] == rounds;
  }

  /** What a round adds to the account of a low error. */
  function Slack(threshold: nat, error: nat): nat {
    if error < threshold then Min(threshold, threshold - error) else 0
  }

  function Accumulated(threshold: nat, rounds: seq<Round>): nat {
    if rounds == [] then 0 else Accumulated(threshold, rounds[..|rounds| - 1]) + Slack(threshold, rounds[|rounds| - 1].error)
  }

  lemma OneMoreSlack(threshold: nat, rounds: seq<Round>, round: Round)
    ensures Accumulated(threshold, rounds + [round]) == Accumulated(threshold, rounds) + Slack(threshold, round.error)
    ensures Accumulated(threshold, []) == 0
  {
    assert (rounds + [round])[..|rounds|] == rounds;
  }

  /** The rounds with an error below the threshold. */
  function RoundsBelow(threshold: nat, rounds: seq<Round>): nat {
    if rounds == [] then 0 else
    RoundsBelow(threshold, rounds[..|rounds| - 1]) + if rounds[|rounds| - 1].error < threshold then 1 else 0
  }

  /** None of them adds more than the threshold. */
  lemma {:induction false} AccumulatedBound(threshold: nat, rounds: seq<Round>)
    ensures Accumulated(threshold, rounds) <= threshold * RoundsBelow(threshold, rounds)
  {
    if rounds != [] {
      AccumulatedBound(threshold, rounds[..|rounds| - 1]);
      var n := RoundsBelow(threshold, rounds[..|rounds| - 1]);
      assert threshold * (n + 1) == threshold * n + threshold;
    }
  }

  /** How the main loop ended: the palette is full, the colours are used up, or the account, which was smaller before,
      has reached ten times the threshold now. */
  ghost predicate Ended(h: Histogram, palette: seq<nat>, maxPaletteSize: nat, threshold: nat, rounds: seq<Round>)
    requires |h.colors| == |h.count| && Indices(palette, |h.colors|)
  {
    && |palette| <= maxPaletteSize && (threshold > 0 ==> Accumulated(threshold, rounds) < 10 * threshold)
    && (|palette| == maxPaletteSize || (forall j :: 0 <= j < |h.colors| ==> j in palette)
        || (PaletteError(h, palette) < threshold
            && Accumulated(threshold, rounds) + Slack(threshold, PaletteError(h, palette)) >= 10 * threshold))
  }

  /** For an early end at least ten rounds had an error below the threshold, counting the one that ended the loop. */
  lemma EarlyEndTakesTenRounds(h: Histogram, palette: seq<nat>, maxPaletteSize: nat, threshold: nat, rounds: seq<Round>)
    requires |h.colors| == |h.count| && Indices(palette, |h.colors|) && Ended(h, palette, maxPaletteSize, threshold, rounds)
    requires threshold > 0 && |palette| < maxPaletteSize && exists j :: 0 <= j < |h.colors| && j !in palette
    ensures RoundsBelow(threshold, rounds) >= 9 && PaletteError(h, palette) < threshold
  {
    hide PaletteError, Accumulated, RoundsBelow;
    AccumulatedBound(threshold, rounds);
    if RoundsBelow(threshold, rounds) <= 8 {
      MulMono(threshold, RoundsBelow(threshold, rounds), 8);
    }
  }

  /** Everything the main loop keeps: the palette is clustered and grew by greedy choices since it had k0
      entries, and the queue holds the other colours. */
  ghost predicate Growing(h: Histogram, palette: seq<nat>, dist: seq<nat>, cluster: seq<nat>, error: int, k0: nat,
                          buckets: seq<seq<nat>>, key: seq<nat>, top: int) {
    && h.Valid() && Clustered(h.colors, palette, dist, cluster) && |dist| == |h.count| && error == ErrorSum(dist, h.count)
    && 0 < k0 <= |palette| && GreedyFrom(h, palette, k0) && Queue(h, palette, buckets, key, top)
  }

  lemma TopUsable(h: Histogram, palette: seq<nat>, dist: seq<nat>, cluster: seq<nat>, error: int, k0: nat,
                  buckets: seq<seq<nat>>, key: seq<nat>, top: int)
    requires Growing(h, palette, dist, cluster, error, k0, buckets, key, top)
    requires 0 <= top < |buckets| && buckets[top] != []
    ensures var i := Last(buckets[top]);
            && h.Valid() && Clustered(h.colors, palette, dist, cluster) && i < |h.colors| == |dist| == |h.count| && Indices(palette, |h.colors|)
            && |h.density| == |h.radius| == |h.colors| && |h.density[i]| == |h.radius[i]| == MAX_LEVEL
            && h.Current(palette, i) == Priority(ScaleQuadDistance(dist[i]), h.count[i], h.density[i], h.radius[i]) >= 0
  {
    hide Priority, ScaleQuadDistance, Nearest;
    var i, n := Last(buckets[top]), |buckets[top]| - 1;
    assert InBucket(h, palette, buckets[top][n], key, top);
    assert Assigned(h.colors, palette, i, dist[i], cluster[i]);
    PriorityInRange(h, i, dist[i]);
  }

  /** The colour at the end of the top bucket has the largest key: what the round makes of it. */
  lemma RoundOfTop(h: Histogram, palette: seq<nat>, buckets: seq<seq<nat>>, key: seq<nat>, top: int)
    requires h.Valid() && Indices(palette, |h.colors|) && Queue(h, palette, buckets, key, top) && top >= 0 && buckets[top] != []
    ensures var i := Last(buckets[top]);
            var round := Round(palette, key, i, PaletteError(h, palette));
            && i < |h.colors| == |key| && |h.colors| == |h.count|
            && (h.Current(palette, i) >= top ==> Leads(h, round, palette + [i], key))
            && (0 <= h.Current(palette, i) < top ==> Leads(h, round, palette, key[i := h.Current(palette, i)]))
  {
    hide h.Current, PaletteError;
    assert InBucket(h, palette, buckets[top][|buckets[top]| - 1], key, top);
    forall j | 0 <= j < |h.colors| && j !in palette
      ensures key[j] <= top
    {
      assert Stored(h, palette, buckets, key, j);
    }
  }

  lemma MoveDown(h: Histogram, palette: seq<nat>, dist: seq<nat>, cluster: seq<nat>, error: int, k0: nat,
                 buckets: seq<seq<nat>>, key: seq<nat>, top: int, p: nat) returns (key2: seq<nat>)
    requires Growing(h, palette, dist, cluster, error, k0, buckets, key, top) && |buckets| == MAX_PRIORITY
    requires 0 <= top < MAX_PRIORITY && buckets[top] != [] && Indices(palette, |h.colors|) && Last(buckets[top]) < |h.colors|
    requires h.Valid() && h.Current(palette, Last(buckets[top])) == p < top
    ensures Growing(h, palette, dist, cluster, error, k0,
                    buckets[p := buckets[p] + [Last(buckets[top])]][top := buckets[top][..|buckets[top]| - 1]], key2, top)
    ensures Leads(h, Round(palette, key, Last(buckets[top]), PaletteError(h, palette)), palette, key2)
  {
    hide Leads, Clustered, Queue, GreedyFrom, ErrorSum, PaletteError, h.Valid, h.Current, Indices;
    RoundOfTop(h, palette, buckets, key, top);
    key2 := Requeue(h, palette, buckets, key, top, p);
  }

  lemma TakeUp(h: Histogram, palette: seq<nat>, dist: seq<nat>, cluster: seq<nat>, error: int, k0: nat,
               buckets: seq<seq<nat>>, key: seq<nat>, top: int, dist2: seq<nat>, cluster2: seq<nat>, error2: int)
    requires Growing(h, palette, dist, cluster, error, k0, buckets, key, top) && |buckets| == MAX_PRIORITY
    requires 0 <= top < MAX_PRIORITY && buckets[top] != [] && Indices(palette, |h.colors|) && Last(buckets[top]) < |h.colors|
    requires h.Valid() && h.Current(palette, Last(buckets[top])) >= top && |dist| == |dist2| == |h.count|
    requires Clustered(h.colors, palette + [Last(buckets[top])], dist2, cluster2)
    requires error2 - ErrorSum(dist2, h.count) == error - ErrorSum(dist, h.count)
    ensures Growing(h, palette + [Last(buckets[top])], dist2, cluster2, error2, k0,
                    buckets[top := buckets[top][..|buckets[top]| - 1]], key, top)
    ensures Leads(h, Round(palette, key, Last(buckets[top]), PaletteError(h, palette)), palette + [Last(buckets[top])], key)
  {
    hide Leads, Clustered, Queue, GreedyFrom, ErrorSum, PaletteError, h.Valid, h.Current, Indices;
    RoundOfTop(h, palette, buckets, key, top);
    TopIsGreedy(h, palette, buckets, key, top);
    Take(h, palette, buckets, key, top);
    GreedyExtends(h, palette, k0, Last(buckets[top]));
  }

  lemma Lowered(h: Histogram, palette: seq<nat>, dist: seq<nat>, cluster: seq<nat>, error: int, k0: nat,
                buckets: seq<seq<nat>>, key: seq<nat>, start: int, top: int)
    requires Growing(h, palette, dist, cluster, error, k0, buckets, key, start)
    requires -1 <= top <= start && forall b :: top < b < |buckets| ==> buckets[b] == []
    ensures Growing(h, palette, dist, cluster, error, k0, buckets, key, top)
  {
    hide Assigned, Queue, GreedyFrom, ErrorSum;
    QueueBelow(h, palette, buckets, key, start, top);
  }

  lemma EmptyAboveTop(h: Histogram, palette: seq<nat>, dist: seq<nat>, cluster: seq<nat>, error: int, k0: nat,
                      buckets: seq<seq<nat>>, key: seq<nat>, top: int)
    requires Growing(h, palette, dist, cluster, error, k0, buckets, key, top)
    ensures -1 <= top < |buckets| == MAX_PRIORITY && forall b :: top < b < |buckets| ==> buckets[b] == []
  {
  }

  /** One round at the top bucket: its last colour is moved down or added to the palette. */
  method PopTop(h: Histogram, dist: array<nat>, cluster: array<nat>, center: array<nat>, k: nat, error: int, ghost k0: nat,
                buckets: array<seq<nat>>, top: int, ghost key: seq<nat>)
    returns (newK: nat, newError: int, newTop: int, ghost newKey: seq<nat>, ghost round: Round)
    requires k < center.Length && dist.Length == cluster.Length == |h.colors| && buckets.Length == MAX_PRIORITY
    requires dist != cluster && cluster != center && dist != center
    requires Growing(h, center[..k], dist[..], cluster[..], error, k0, buckets[..], key, top)
    requires 0 <= top < MAX_PRIORITY && buckets[top] != []
    modifies dist, cluster, center, buckets
    ensures k <= newK <= k + 1 && center[..k] == old(center[..k])
    ensures Growing(h, center[..newK], dist[..], cluster[..], newError, k0, buckets[..], newKey, newTop)
    ensures -1 <= newTop < MAX_PRIORITY && (newTop >= 0 ==> buckets[newTop] != [])
    ensures Weight(buckets[..]) < old(Weight(buckets[..]))
    ensures h.Valid() && Leads(h, round, center[..newK], newKey)
    ensures round.palette == center[..k] && round.key == key && round.error == error
  {
    hide *;
    ghost var palette, before, dist0, cluster0 := center[..k], buckets[..], dist[..], cluster[..];
    TopUsable(h, palette, dist[..], cluster[..], error, k0, buckets[..], key, top);
    ErrorIsPaletteError(h, palette, dist[..], cluster[..], error, k0, buckets[..], key, top);
    var i := Last(buckets[top]);
    round := Round(palette, key, i, error);
    var priority := PriorityOf(ScaleQuadDistance(dist[i]), h.count[i], h.density[i], h.radius[i]);
    if priority < top {
      newKey := MoveDown(h, palette, dist[..], cluster[..], error, k0, before, key, top, priority);
      MovingLowersWeight(before, top, priority, i);
      buckets[priority] := buckets[priority] + [i];
      newK, newError := k, error;
    } else {
      TakingLowersWeight(before, top);
      newError := AddToRGBPalette(h.colors, h.count, i, k, dist, cluster, center, error);
      TakeUp(h, palette, dist0, cluster0, error, k0, before, key, top, dist[..], cluster[..], newError);
      newK, newKey := k + 1, key;
    }
    buckets[top] := buckets[top][..|buckets[top]| - 1];
    assert buckets[..] == if priority < top then before[priority := before[priority] + [i]][top := before[top][..|before[top]| - 1]]
                          else before[top := before[top][..|before[top]| - 1]];
    EmptyAboveTop(h, center[..newK], dist[..], cluster[..], newError, k0, buckets[..], newKey, top);
    newTop := LowerTop(buckets, top);
    Lowered(h, center[..newK], dist[..], cluster[..], newError, k0, buckets[..], newKey, top, newTop);
  }

  /** The main loop: greedy choices until the palette is full, the colours are used up, or the error has been
      below the threshold for long enough. */
  method GrowPalette(h: Histogram, dist: array<nat>, cluster: array<nat>, center: array<nat>, k0: nat, error0: int,
                     maxPaletteSize: nat, errorThreshold: nat, buckets: array<seq<nat>>, top0: int, ghost key0: seq<nat>)
    returns (k: nat, error: int, ghost rounds: seq<Round>)
    requires dist.Length == cluster.Length == |h.colors| && buckets.Length == MAX_PRIORITY && k0 <= maxPaletteSize <= center.Length
    requires dist != cluster && cluster != center && dist != center
    requires Growing(h, center[..k0], dist[..], cluster[..], error0, k0, buckets[..], key0, top0)
    requires h.Valid() && Indices(center[..k0], |h.colors|) && UpToDate(h, center[..k0], key0)
    requires -1 <= top0 < MAX_PRIORITY && (top0 >= 0 ==> buckets[top0] != [])
    modifies dist, cluster, center, buckets
    ensures k0 <= k <= maxPaletteSize && center[..k0] == old(center[..k0])
    ensures h.Valid() && Clustered(h.colors, center[..k], dist[..], cluster[..]) && error == ErrorSum(dist[..], h.count)
    ensures GreedyFrom(h, center[..k], k0)
    ensures (exists key :: Rounds(h, center[..k0], rounds, center[..k], key)) && Ended(h, center[..k], maxPaletteSize, errorThreshold, rounds)
  {
    hide Growing, Weight, GreedyFrom, Clustered, ErrorSum, h.Valid, Rounds, Leads, PaletteError, UpToDate, Accumulated;
    var errorAccum := 0;
    k, error, rounds := k0, error0, [];
    OneMoreSlack(errorThreshold, [], Round([], [], 0, 0));
    ghost var seeds := center[..k0];
    StartRounds(h, seeds, key0);
    var top := top0;
    ghost var key := key0;
    while top >= 0 && k < maxPaletteSize
      invariant k0 <= k <= maxPaletteSize && center[..k0] == seeds
      invariant Growing(h, center[..k], dist[..], cluster[..], error, k0, buckets[..], key, top)
      invariant -1 <= top < MAX_PRIORITY && (top >= 0 ==> buckets[top] != [])
      invariant h.Valid() && Rounds(h, seeds, rounds, center[..k], key)
      invariant errorAccum == Accumulated(errorThreshold, rounds) && (errorThreshold > 0 ==> errorAccum < 10 * errorThreshold)
      decreases Weight(buckets[..])
    {
      ErrorIsPaletteError(h, center[..k], dist[..], cluster[..], error, k0, buckets[..], key, top);
      if error < errorThreshold {
        errorAccum := errorAccum + Min(errorThreshold, errorThreshold - error);
        if errorAccum >= 10 * errorThreshold {
          break;
        }
      }
      ghost var before := center[..k];
      ghost var round;
      k, error, top, key, round := PopTop(h, dist, cluster, center, k, error, k0, buckets, top, key);
      assert center[..k0] == before[..k0];
      OneMoreRound(h, seeds, rounds, round, center[..k], key);
      OneMoreSlack(errorThreshold, rounds, round);
      rounds := rounds + [round];
    }
    ErrorIsPaletteError(h, center[..k], dist[..], cluster[..], error, k0, buckets[..], key, top);
    Grown(h, center[..k], dist[..], cluster[..], error, k0, buckets[..], key, top);
  }

  lemma StartRounds(h: Histogram, seeds: seq<nat>, key: seq<nat>)
    requires h.Valid() && Indices(seeds, |h.colors|) && UpToDate(h, seeds, key)
    ensures Rounds(h, seeds, [], seeds, key)
  {
  }

  lemma ErrorIsPaletteError(h: Histogram, palette: seq<nat>, dist: seq<nat>, cluster: seq<nat>, error: int, k0: nat,
                            buckets: seq<seq<nat>>, key: seq<nat>, top: int)
    requires Growing(h, palette, dist, cluster, error, k0, buckets, key, top)
    ensures h.Valid() && |h.colors| == |h.count| && Indices(palette, |h.colors|) && error == PaletteError(h, palette)
  {
    hide ErrorSum, Queue, GreedyFrom, Assigned;
    ClusteredError(h, palette, dist, cluster);
  }

  lemma Grown(h: Histogram, palette: seq<nat>, dist: seq<nat>, cluster: seq<nat>, error: int, k0: nat,
              buckets: seq<seq<nat>>, key: seq<nat>, top: int)
    requires Growing(h, palette, dist, cluster, error, k0, buckets, key, top)
    ensures h.Valid() && Clustered(h.colors, palette, dist, cluster) && |dist| == |h.count| && error == ErrorSum(dist, h.count)
    ensures GreedyFrom(h, palette, k0) && k0 > 0
    ensures top == -1 ==> forall j :: 0 <= j < |h.colors| ==> j in palette
  {
    if top == -1 {
      EmptyQueue(h, palette, buckets, key);
    }
  }
}
