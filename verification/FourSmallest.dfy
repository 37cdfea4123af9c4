/** The sorting network and the running minimum of lib/jpegli/adaptive_quantization.cc: together they keep
    the four smallest values of a neighbourhood in order. One lane of the vectors is modelled. */
module FourSmallest {
  function Min(a: real, b: real): real {
    if a < b then a else b
  }

  function Max(a: real, b: real): real {
    if a < b then b else a
  }

  predicate IsSorted(s: seq<real>) {
    forall i, j :: 0 <= i < j < |s| ==> s[i] <= s[j]
  }

  /** Insertion into an ordered list, and the sort that it gives: the reference. */
  function Insert(v: real, s: seq<real>): (r: seq<real>)
    ensures |r| == |s| + 1
  {
    if s == [] || v <= s[0] then [v] + s else [s[0]] + Insert(v, s[1..])
  }

  function Sort(s: seq<real>): (r: seq<real>)
    ensures |r| == |s|
  {
    if s == [] then [] else Insert(s[|s| - 1], Sort(s[..|s| - 1]))
  }

  lemma InsertStep(v: real, a: real, rest: seq<real>)
    ensures Insert(v, [a] + rest) == if v <= a then [v, a] + rest else [a] + Insert(v, rest)
  {
    assert ([a] + rest)[1..] == rest;
    assert v <= a ==> [v] + ([a] + rest) == [v, a] + rest;
  }

  lemma {:induction false} InsertKeepsValues(v: real, s: seq<real>)
    ensures multiset(Insert(v, s)) == multiset(s) + multiset{v}
  {
    if s != [] && v > s[0] {
      InsertKeepsValues(v, s[1..]);
      assert s == [s[0]] + s[1..];
    }
  }

  lemma {:induction false} InsertIsOrdered(v: real, s: seq<real>)
    requires IsSorted(s)
    ensures IsSorted(Insert(v, s))
  {
    if s != [] && v > s[0] {
      var rest := Insert(v, s[1..]);
      InsertIsOrdered(v, s[1..]);
      InsertKeepsValues(v, s[1..]);
      forall i | 0 <= i < |rest|
        ensures s[0] <= rest[i]
      {
        assert rest[i] in multiset(rest);
        assert rest[i] in multiset(s[1..]) || rest[i] == v;
      }
    }
  }

  /** The reference sorts. */
  lemma {:induction false} SortIsOrdered(s: seq<real>)
    ensures IsSorted(Sort(s)) && multiset(Sort(s)) == multiset(s)
  {
    if s != [] {
      SortIsOrdered(s[..|s| - 1]);
      InsertIsOrdered(s[|s| - 1], Sort(s[..|s| - 1]));
      InsertKeepsValues(s[|s| - 1], Sort(s[..|s| - 1]));
      assert s == s[..|s| - 1] + [s[|s| - 1]];
    }
  }

  /** The k smallest after an insertion depend on the k smallest before it only. */
  lemma {:induction false} InsertPrefix(v: real, s: seq<real>, k: nat)
    requires k <= |s|
    ensures Insert(v, s)[..k] == Insert(v, s[..k])[..k]
  {
    if k > 0 && v > s[0] {
      InsertPrefix(v, s[1..], k - 1);
      assert s[..k][1..] == s[1..][..k - 1];
    }
  }

  datatype Four = Four(m0: real, m1: real, m2: real, m3: real) {
    function Values(): seq<real> {
      [m0, m1, m2, m3]
    }
  }

  lemma SortOfFour(a: real, b: real, c: real, d: real)
    ensures Sort([a, b, c, d]) == Insert(d, Insert(c, Insert(b, [a])))
  {
    assert Insert(a, []) == [a];
    hide Insert;
    assert [a][..0] == [];
    assert Sort([a]) == Insert(a, []);
    assert [a, b][..1] == [a];
    assert Sort([a, b]) == Insert(b, [a]);
    assert [a, b, c][..2] == [a, b];
    assert Sort([a, b, c]) == Insert(c, Insert(b, [a]));
    assert [a, b, c, d][..3] == [a, b, c];
  }

  lemma InsertIntoFour(v: real, a: real, b: real, c: real, d: real)
    requires a <= b <= c <= d
    ensures Insert(v, [a, b, c, d])[..4] ==
            if v <= a then [v, a, b, c] else if v <= b then [a, v, b, c] else if v <= c then [a, b, v, c]
            else if v <= d then [a, b, c, v] else [a, b, c, d]
  {
    assert Insert(v, []) == [v];
    InsertStep(v, a, [b, c, d]);
    InsertStep(v, b, [c, d]);
    InsertStep(v, c, [d]);
    InsertStep(v, d, []);
    hide Insert;
    assert [a, b, c, d] == [a] + [b, c, d] && [b, c, d] == [b] + [c, d] && [c, d] == [c] + [d] && [d] == [d] + [];
    var all := if v <= a then [v, a, b, c, d] else if v <= b then [a, v, b, c, d] else if v <= c then [a, b, v, c, d]
               else if v <= d then [a, b, c, v, d] else [a, b, c, d, v];
    assert Insert(v, [a, b, c, d]) == all;
    if v <= a {
      assert all[..4] == [v, a, b, c];
    } else if v <= b {
      assert all[..4] == [a, v, b, c];
    } else if v <= c {
      assert all[..4] == [a, b, v, c];
    } else if v <= d {
      assert all[..4] == [a, b, c, v];
    } else {
      assert all[..4] == [a, b, c, d];
    }
  }

  lemma InsertSmall(v: real, a: real, b: real, c: real)
    ensures Insert(v, [a]) == if v <= a then [v, a] else [a, v]
    ensures Insert(v, [a, b]) == if v <= a then [v, a, b] else if v <= b then [a, v, b] else [a, b, v]
    ensures Insert(v, [a, b, c]) == if v <= a then [v, a, b, c] else if v <= b then [a, v, b, c] else if v <= c then [a, b, v, c] else [a, b, c, v]
  {
    assert Insert(v, []) == [v];
    InsertStep(v, a, [b, c]);
    InsertStep(v, b, [c]);
    InsertStep(v, a, [b]);
    InsertStep(v, a, []);
    InsertStep(v, b, []);
    InsertStep(v, c, []);
    hide Insert;
    assert [a, b, c] == [a] + [b, c] && [b, c] == [b] + [c] && [c] == [c] + [];
    assert [a, b] == [a] + [b] && [b] == [b] + [] && [a] == [a] + [];
  }

  /** Five comparators sort four values. */
  method Sort4(f: Four) returns (r: Four)
    ensures r.Values() == Sort(f.Values()) && r.m0 <= r.m1 <= r.m2 <= r.m3
  {
    var tmp0, tmp1 := Min(f.m0, f.m1), Max(f.m0, f.m1);
    var tmp2, tmp3 := Min(f.m2, f.m3), Max(f.m2, f.m3);
    var tmp4, tmp5 := Max(tmp0, tmp2), Min(tmp1, tmp3);
    r := Four(Min(tmp0, tmp2), Min(tmp4, tmp5), Max(tmp4, tmp5), Max(tmp1, tmp3));
    SortOfFour(f.m0, f.m1, f.m2, f.m3);
    hide Sort, Insert;
    InsertSmall(f.m1, f.m0, f.m0, f.m0);
    InsertSmall(f.m2, tmp0, tmp1, tmp1);
    var three := Insert(f.m2, [tmp0, tmp1]);
    InsertSmall(f.m3, three[0], three[1], three[2]);
    assert three == [three[0], three[1], three[2]];
  }

  /** One more value: the largest of the four drops out unless the new one is larger still. */
  method UpdateMin4(v: real, f: Four, ghost s: seq<real>) returns (r: Four)
    requires |s| >= 4 && Sort(s)[..4] == f.Values() && f.m0 <= f.m1 <= f.m2 <= f.m3
    ensures Sort(s + [v])[..4] == r.Values() && r.m0 <= r.m1 <= r.m2 <= r.m3
  {
    var tmp0 := Max(f.m0, v);
    var tmp1 := Max(f.m1, tmp0);
    var tmp2 := Max(f.m2, tmp1);
    r := Four(Min(f.m0, v), Min(f.m1, tmp0), Min(f.m2, tmp1), Min(f.m3, tmp2));
    assert (s + [v])[..|s|] == s;
    assert Sort(s + [v]) == Insert(v, Sort(s));
    hide Sort;
    InsertPrefix(v, Sort(s), 4);
    InsertIntoFour(v, f.m0, f.m1, f.m2, f.m3);
  }
}
