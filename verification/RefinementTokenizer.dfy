/**
 The tokens of a refinement pass (TokenizeACRefinementScan in lib/jpegli/entropy_coding.cc). A run of ends of bands is one
 token that is brought up to date in place; tokens that were written in vain for a block are taken back.
 */
module RefinementTokenizer {
  import opened Arithmetic
  import opened BitStrings
  import opened BitWriter
  import opened HuffmanCode
  import opened ScanWriter
  import opened BlockSymbols
  import opened ProgressiveBlocks
  import opened RefinementBlocks
  import opened RefinementScans

  // ---------------------------------------------------------------- lists and items

  /** Tokens, correction bits and lengths of runs. */
  datatype Lists = Lists(tokens: seq<RefToken>, refbits: seq<nat>, eobruns: seq<nat>)
  {
    function Scan(): RefScan {
      RefScan(tokens, refbits, eobruns, [])
    }

    /** Every correction bit and every run belongs to a token. */
    predicate Exact() {
      && RefbitsBefore(tokens, |tokens|) == |refbits| && RunsBefore(tokens, |tokens|) == |eobruns|
      && forall k :: 0 <= k < |refbits| ==> refbits[k] < 2
    }
  }

  function ItemsIn(l: Lists): (items: seq<Item>)
    requires l.Exact()
    ensures |items| == |l.tokens|
  {
    seq(|l.tokens|, i requires 0 <= i < |l.tokens| =>
      TokenInLists(l.Scan(), i);
      Item(CodedSymbol(l.tokens[i]), ExtraOf(l.Scan(), i), CorrectionBits(l.refbits, RefbitsBefore(l.tokens, i), l.tokens[i].refbits)))
  }

  function AsNumbers(bits: Bits): (s: seq<nat>)
    ensures |s| == |bits| && forall i :: 0 <= i < |s| ==> s[i] == if bits[i] then 1 else 0
  {
    seq(|bits|, i requires 0 <= i < |bits| => if bits[i] then 1 else 0)
  }

  /** The extra bits of a token, given the length of its run. */
  function ExtraBitsOf(t: RefToken, eobrun: nat): nat {
    if CodedSymbol(t) % 2 == 1 then t.symbol / 2 % 2 else if HasRunBits(t) then eobrun else 0
  }

  function WithToken(l: Lists, t: RefToken, bits: Bits, eobrun: nat): Lists {
    Lists(l.tokens + [t], l.refbits + AsNumbers(bits), l.eobruns + if HasRunBits(t) then [eobrun] else [])
  }

  lemma {:induction false} SameBefore(tokens: seq<RefToken>, t: RefToken, i: nat)
    requires i <= |tokens|
    ensures RefbitsBefore(tokens + [t], i) == RefbitsBefore(tokens, i) && RunsBefore(tokens + [t], i) == RunsBefore(tokens, i)
  {
    if i > 0 {
      SameBefore(tokens, t, i - 1);
    }
  }

  /** What the lists say about a token does not change when they get longer. */
  lemma SameItem(l: Lists, m: Lists, i: nat)
    requires l.Exact() && m.Exact() && i < |l.tokens| && l.tokens <= m.tokens && l.refbits <= m.refbits && l.eobruns <= m.eobruns
    requires RefbitsBefore(m.tokens, i) == RefbitsBefore(l.tokens, i) && RunsBefore(m.tokens, i) == RunsBefore(l.tokens, i)
    ensures ItemsIn(m)[i] == ItemsIn(l)[i]
  {
    hide CodedSymbol, HasRunBits;
    TokenInLists(l.Scan(), i);
    TokenInLists(m.Scan(), i);
    assert l.tokens[i] == m.tokens[i];
  }

  lemma LastItem(l: Lists, t: RefToken, bits: Bits, eobrun: nat)
    requires l.Exact() && t.refbits == |bits| && WithToken(l, t, bits, eobrun).Exact()
    ensures ItemsIn(WithToken(l, t, bits, eobrun))[|l.tokens|] == Item(CodedSymbol(t), ExtraBitsOf(t, eobrun), bits)
  {
    hide CodedSymbol, HasRunBits;
    var n, m := |l.tokens|, WithToken(l, t, bits, eobrun);
    SameBefore(l.tokens, t, n);
    TokenInLists(m.Scan(), n);
    assert m.tokens[n] == t;
    assert CorrectionBits(m.refbits, |l.refbits|, |bits|) == bits;
  }

  lemma AddedIsExact(l: Lists, t: RefToken, bits: Bits, eobrun: nat)
    requires l.Exact() && t.refbits == |bits|
    ensures WithToken(l, t, bits, eobrun).Exact()
  {
    hide CodedSymbol, HasRunBits, RefbitsBefore, RunsBefore;
    SameBefore(l.tokens, t, |l.tokens|);
    CountsNext(l.tokens + [t], |l.tokens|);
  }

  /** One more token, with its correction bits. */
  lemma TokenAdded(l: Lists, t: RefToken, bits: Bits, eobrun: nat)
    requires l.Exact() && t.refbits == |bits|
    ensures WithToken(l, t, bits, eobrun).Exact()
    ensures ItemsIn(WithToken(l, t, bits, eobrun)) == ItemsIn(l) + [Item(CodedSymbol(t), ExtraBitsOf(t, eobrun), bits)]
  {
    hide CodedSymbol, HasRunBits, RefbitsBefore, RunsBefore, ItemsIn, ExtraBitsOf, Lists.Exact;
    var n, m := |l.tokens|, WithToken(l, t, bits, eobrun);
    AddedIsExact(l, t, bits, eobrun);
    var x, y := ItemsIn(m), ItemsIn(l) + [Item(CodedSymbol(t), ExtraBitsOf(t, eobrun), bits)];
    forall i | 0 <= i < |x|
      ensures x[i] == y[i]
    {
      if i < n {
        SameBefore(l.tokens, t, i);
        SameItem(l, m, i);
      } else {
        LastItem(l, t, bits, eobrun);
      }
    }
  }

  // ---------------------------------------------------------------- powers of two

  /** The test that the source makes. */
  predicate IsPowerOfTwo(x: nat)
    requires x > 0
  {
    And(x, x - 1, 16) == 0
  }

  lemma {:induction false} AndWithItself(x: nat, w: nat)
    requires x < Pow2(w)
    ensures And(x, x, w) == x
  {
    if w > 0 {
      AndWithItself(x / 2, w - 1);
    }
  }

  lemma {:induction false} PowerTest(x: nat, n: nat, w: nat)
    requires 0 < x < Pow2(w) && Pow2(n) <= x < 2 * Pow2(n)
    ensures And(x, x - 1, w) == 0 <==> x == Pow2(n)
  {
    if x % 2 == 1 {
      AndWithItself(x / 2, w - 1);
      assert (x - 1) / 2 == x / 2;
    } else {
      assert (x - 1) / 2 == x / 2 - 1;
      PowerTest(x / 2, n - 1, w - 1);
    }
  }

  /** The next length of a run: one more extra bit exactly at powers of two. */
  lemma NextRun(run: nat)
    requires 0 < run < MAX_EOB_RUN
    ensures IsPowerOfTwo(run + 1) <==> run + 1 == Pow2(RunBits(run + 1))
    ensures run + 1 == Pow2(RunBits(run + 1)) ==> RunBits(run + 1) == RunBits(run) + 1
    ensures run + 1 != Pow2(RunBits(run + 1)) ==> RunBits(run + 1) == RunBits(run)
  {
    RunUnder16Bits(run + 1);
    PowerTest(run + 1, RunBits(run + 1), 16);
    SameLength(run, RunBits(run), RunBits(run + 1));
  }

  lemma RunUnder16Bits(run: nat)
    requires run <= MAX_EOB_RUN
    ensures run < Pow2(16)
  {
    Pow2Of16();
  }

  lemma SameLength(run: nat, n: nat, m: nat)
    requires Pow2(n) <= run < 2 * Pow2(n) && Pow2(m) <= run + 1 < 2 * Pow2(m)
    ensures run + 1 == Pow2(m) ==> m == n + 1
    ensures run + 1 != Pow2(m) ==> m == n
  {
    LessByPower(n, m + 1);
    LessByPower(m, n + 2);
    assert Pow2(n + 1) == 2 * Pow2(n);
  }

  lemma LessByPower(a: nat, b: nat)
    requires Pow2(a) < Pow2(b)
    ensures a < b
  {
    if a >= b {
      Pow2Mono(b, a);
    }
  }

  // ---------------------------------------------------------------- the state between two blocks

  /** The token of a run. */
  function RunToken(run: nat, corrections: Bits): RefToken
    requires 0 < run <= MAX_EOB_RUN
  {
    RefToken(16 * RunBits(run), |corrections|)
  }

  function RunLength(run: nat): nat
    requires 0 < run <= MAX_EOB_RUN
  {
    run - Pow2(RunBits(run))
  }

  /** The lists with the token of a run. */
  function WithRun(l: Lists, run: nat, corrections: Bits): Lists
    requires run <= MAX_EOB_RUN
  {
    if run == 0 then l else WithToken(l, RunToken(run, corrections), corrections, RunLength(run))
  }

  lemma RunIsItem(l: Lists, run: nat, corrections: Bits)
    requires l.Exact() && run <= MAX_EOB_RUN && (run == 0 ==> corrections == [])
    ensures WithRun(l, run, corrections).Exact()
    ensures ItemsIn(WithRun(l, run, corrections)) == ItemsIn(l) + EobItems(run, corrections)
  {
    if run > 0 {
      var t := RunToken(run, corrections);
      TokenAdded(l, t, corrections, RunLength(run));
      RunTokenIs(run, corrections);
    } else {
      assert ItemsIn(l) + [] == ItemsIn(l);
    }
  }

  lemma RunTokenIs(run: nat, corrections: Bits)
    requires 0 < run <= MAX_EOB_RUN
    ensures var t := RunToken(run, corrections);
      && CodedSymbol(t) == t.symbol && (HasRunBits(t) <==> run > 1) && ExtraBitsOf(t, RunLength(run)) == RunLength(run)
  {
    assert Pow2(0) == 1;
  }

  /** The places and counters between two blocks. */
  datatype State = State(lists: Lists, nextEobToken: nat, eobRun: nat, eobRefbits: nat)

  /** What is settled, and the run that is still open, with its correction bits. */
  ghost predicate Holds(st: State, base: Lists, run: nat, corrections: Bits) {
    && base.Exact() && run < MAX_EOB_RUN && (run == 0 ==> corrections == [])
    && st == State(WithRun(base, run, corrections), |base.tokens|, run, |corrections|)
  }

  // ---------------------------------------------------------------- within a block

  /** The lists as far as they are written, the zeros that wait, and the correction bits of tokens that may be taken back,
      and of none. */
  datatype Work = Work(lists: Lists, r: nat, eobBits: nat, refBits: nat)
  {
    /** Without the correction bits that have no token yet. */
    function Settled(): Lists
      requires refBits <= |lists.refbits|
    {
      lists.(refbits := lists.refbits[..|lists.refbits| - refBits])
    }
  }

  /** The correction bits since the last new coefficient that have no token yet. */
  ghost function Open(b: Block, band: Band, kk: nat, k: nat, w: Work): Bits
    requires k <= 64 && w.eobBits <= |Corrections(b, band, kk, k)|
  {
    Corrections(b, band, kk, k)[w.eobBits..]
  }

  /** Before position k: kept is what the lists were after the last new coefficient, or at the start, and kk the place after it. */
  ghost predicate During(b: Block, band: Band, k: nat, w: Work, kept: Lists, kk: nat, target: seq<Item>)
    requires band.Valid()
  {
    && band.first <= kk <= k <= band.last + 1 && kept.Exact()
    && w.eobBits + w.refBits == |Corrections(b, band, kk, k)|
    && kept.tokens <= w.lists.tokens && w.lists.eobruns == kept.eobruns
    && w.lists.refbits == kept.refbits + AsNumbers(Corrections(b, band, kk, k))
    && w.Settled().Exact()
    && (HasNew(b, band, k) ==> AfterNew(b, band, band.first) == AfterNew(b, band, k)
                               && ItemsIn(w.Settled()) + NewItems(b, band, k, w.r, Open(b, band, kk, k, w)) == target)
    && (!HasNew(b, band, k) ==> kk == AfterNew(b, band, band.first) && ItemsIn(kept) == target)
  }

  lemma AllSettled(l: Lists, n: nat)
    ensures Work(l, n, 0, 0).Settled() == l
  {
    assert l.refbits[..|l.refbits|] == l.refbits;
  }

  /** At the start of a block, and after a new coefficient, nothing may be taken back. */
  lemma NothingOpen(b: Block, band: Band, k: nat, l: Lists, target: seq<Item>)
    requires band.Valid() && band.first <= k <= band.last + 1 && l.Exact() && ItemsIn(l) + NewItems(b, band, k, 0, []) == target
    requires AfterNew(b, band, band.first) == AfterNew(b, band, k)
    ensures During(b, band, k, Work(l, 0, 0, 0), l, k, target)
  {
    AllSettled(l, 0);
    EmptyCorrections(b, band, k, l);
    if !HasNew(b, band, k) {
      NoNewItems(b, band, k, 0, []);
      assert ItemsIn(l) + [] == ItemsIn(l);
    }
    hide HasNew, NewItems, ItemsIn, AfterNew, Corrections, Lists.Exact;
  }

  lemma Starts(b: Block, band: Band, l: Lists)
    requires band.Valid() && l.Exact()
    ensures During(b, band, band.first, Work(l, 0, 0, 0), l, band.first, ItemsIn(l) + NewItems(b, band, band.first, 0, []))
  {
    hide During, NewItems, ItemsIn, AfterNew;
    NothingOpen(b, band, band.first, l, ItemsIn(l) + NewItems(b, band, band.first, 0, []));
  }

  lemma OneMorePlace(b: Block, band: Band, kk: nat, k: nat)
    requires band.Valid() && kk <= k <= band.last
    ensures Corrections(b, band, kk, k + 1) == Corrections(b, band, kk, k) + if Magnitude(b, band, k) > 1 then OneBit(b, band, k) else []
    ensures Magnitude(b, band, k) != 1 ==> (HasNew(b, band, k + 1) <==> HasNew(b, band, k))
  {
    SplitAt(b, band, kk, k, k + 1);
    hide Magnitude, OneBit;
    assert Corrections(b, band, k + 1, k + 1) == [];
    if Magnitude(b, band, k) > 1 {
      assert OneBit(b, band, k) + [] == OneBit(b, band, k);
    }
  }

  /** A zero. */
  lemma ZeroWaits(b: Block, band: Band, k: nat, w: Work, kept: Lists, kk: nat, target: seq<Item>)
    requires band.Valid() && k <= band.last && During(b, band, k, w, kept, kk, target) && Magnitude(b, band, k) == 0
    ensures During(b, band, k + 1, w.(r := w.r + 1), kept, kk, target)
  {
    hide HasNew, NewItems, ItemsIn, Magnitude, AfterNew, Corrections;
    OneMorePlace(b, band, kk, k);
    assert Corrections(b, band, kk, k) + [] == Corrections(b, band, kk, k);
    assert w.(r := w.r + 1).Settled() == w.Settled();
    if HasNew(b, band, k) {
      NewStep(b, band, k, w.r, Open(b, band, kk, k, w));
    }
  }

  /** The items from a coefficient on that is not zero, without the ZRL codes before it. */
  function FromHere(b: Block, band: Band, k: nat, r: nat, corrections: Bits): seq<Item>
    requires band.Valid() && k <= band.last && r <= 15
  {
    if Magnitude(b, band, k) > 1 then NewItems(b, band, k + 1, r, corrections + OneBit(b, band, k))
    else [Item(16 * r + 1, if b[k] > 0 then 1 else 0, corrections)] + NewItems(b, band, k + 1, 0, [])
  }

  lemma ZrlsFirst(b: Block, band: Band, k: nat, r: nat, corrections: Bits)
    requires band.Valid() && k <= band.last && HasNew(b, band, k) && Magnitude(b, band, k) >= 1
    ensures NewItems(b, band, k, r, corrections)
         == Zrls(r, corrections) + FromHere(b, band, k, r % 16, if r > 15 then [] else corrections)
  {
    hide Magnitude, OneBit, HasNew, AfterNew, Zrls, NewItems;
    NewStep(b, band, k, r, corrections);
    var left := if r > 15 then [] else corrections;
    if Magnitude(b, band, k) <= 1 {
      Associate(Zrls(r, corrections), [Item(16 * (r % 16) + 1, if b[k] > 0 then 1 else 0, left)], NewItems(b, band, k + 1, 0, []));
    }
  }

  lemma ZrlsUnfold(r: nat, corrections: Bits)
    ensures r > 15 ==> Zrls(r, corrections) == [Item(0xF0, 0, corrections)] + Zrls(r - 16, [])
    ensures r <= 15 ==> forall items: seq<Item> :: Zrls(r, corrections) + items == items
  {
  }

  lemma ZrlStep(b: Block, band: Band, k: nat, r: nat, corrections: Bits)
    requires band.Valid() && k <= band.last && HasNew(b, band, k) && Magnitude(b, band, k) >= 1 && r > 15
    ensures NewItems(b, band, k, r, corrections) == [Item(0xF0, 0, corrections)] + NewItems(b, band, k, r - 16, [])
  {
    hide Magnitude, HasNew, Zrls, NewItems, FromHere;
    ZrlsFirst(b, band, k, r, corrections);
    ZrlsFirst(b, band, k, r - 16, []);
    ZrlsUnfold(r, corrections);
    Associate([Item(0xF0, 0, corrections)], Zrls(r - 16, []), FromHere(b, band, k, r % 16, []));
  }

  lemma NumbersSum(a: Bits, b: Bits)
    ensures AsNumbers(a + b) == AsNumbers(a) + AsNumbers(b)
  {
  }

  /** The correction bits without a token are the last ones. */
  lemma OpenIsLast(b: Block, band: Band, k: nat, w: Work, kept: Lists, kk: nat, target: seq<Item>)
    requires band.Valid() && During(b, band, k, w, kept, kk, target)
    ensures |Open(b, band, kk, k, w)| == w.refBits
    ensures w.lists.refbits == w.Settled().refbits + AsNumbers(Open(b, band, kk, k, w))
  {
    hide HasNew, NewItems, ItemsIn, AfterNew, Corrections;
    var all := Corrections(b, band, kk, k);
    assert all == all[..w.eobBits] + all[w.eobBits..];
    NumbersSum(all[..w.eobBits], all[w.eobBits..]);
    assert w.Settled().refbits == kept.refbits + AsNumbers(all[..w.eobBits]);
    Associate(kept.refbits, AsNumbers(all[..w.eobBits]), AsNumbers(all[w.eobBits..]));
  }

  /** A token for all correction bits that have none. */
  lemma TokenSettles(b: Block, band: Band, k: nat, w: Work, kept: Lists, kk: nat, target: seq<Item>, t: RefToken)
    requires band.Valid() && During(b, band, k, w, kept, kk, target) && t.refbits == w.refBits && !HasRunBits(t)
    ensures var l := w.lists.(tokens := w.lists.tokens + [t]);
      && l.Exact() && kept.tokens <= l.tokens
      && ItemsIn(l) == ItemsIn(w.Settled()) + [Item(CodedSymbol(t), ExtraBitsOf(t, 0), Open(b, band, kk, k, w))]
  {
    OpenIsLast(b, band, k, w, kept, kk, target);
    TokenAdded(w.Settled(), t, Open(b, band, kk, k, w), 0);
    hide HasNew, NewItems, ItemsIn, AfterNew, Corrections, HasRunBits, CodedSymbol;
    assert WithToken(w.Settled(), t, Open(b, band, kk, k, w), 0) == w.lists.(tokens := w.lists.tokens + [t]);
  }

  /** A token that takes all correction bits without one, and stays as long as they do. */
  lemma WorkSettles(b: Block, band: Band, k: nat, w: Work, kept: Lists, kk: nat, target: seq<Item>, t: RefToken)
    requires band.Valid() && During(b, band, k, w, kept, kk, target) && t.refbits == w.refBits && !HasRunBits(t)
    ensures var next := Work(w.lists.(tokens := w.lists.tokens + [t]), 0, w.eobBits + w.refBits, 0);
      && next.Settled() == next.lists && Open(b, band, kk, k, next) == []
  {
    hide HasNew, NewItems, ItemsIn, AfterNew, Corrections, HasRunBits, Lists.Exact;
    var l := w.lists.(tokens := w.lists.tokens + [t]);
    assert l.refbits[..|l.refbits|] == l.refbits;
    var all := Corrections(b, band, kk, k);
    assert all[|all|..] == [];
  }

  lemma ZrlIs(refBits: nat)
    ensures var t := RefToken(0xF0, refBits); CodedSymbol(t) == 0xF0 && !HasRunBits(t) && ExtraBitsOf(t, 0) == 0
  {
  }

  /** A ZRL token. */
  lemma ZrlWritten(b: Block, band: Band, k: nat, w: Work, kept: Lists, kk: nat, target: seq<Item>)
    requires band.Valid() && k <= band.last && During(b, band, k, w, kept, kk, target) && Magnitude(b, band, k) >= 1 && w.r > 15
    ensures During(b, band, k, Work(w.lists.(tokens := w.lists.tokens + [RefToken(0xF0, w.refBits)]), w.r - 16, w.eobBits + w.refBits, 0),
                   kept, kk, target)
  {
    hide HasNew, NewItems, ItemsIn, AfterNew, Corrections, Magnitude, CodedSymbol, HasRunBits, ExtraBitsOf, Lists.Exact;
    var t := RefToken(0xF0, w.refBits);
    ZrlIs(w.refBits);
    TokenSettles(b, band, k, w, kept, kk, target, t);
    WorkSettles(b, band, k, w, kept, kk, target, t);
    if HasNew(b, band, k) {
      var open := Open(b, band, kk, k, w);
      ZrlStep(b, band, k, w.r, open);
      Associate(ItemsIn(w.Settled()), [Item(0xF0, 0, open)], NewItems(b, band, k, w.r - 16, []));
    }
  }

  /** A correction bit. */
  lemma CorrectionWaits(b: Block, band: Band, k: nat, w: Work, kept: Lists, kk: nat, target: seq<Item>)
    requires band.Valid() && k <= band.last && During(b, band, k, w, kept, kk, target) && Magnitude(b, band, k) > 1 && w.r <= 15
    ensures During(b, band, k + 1, w.(lists := w.lists.(refbits := w.lists.refbits + AsNumbers(OneBit(b, band, k))), refBits := w.refBits + 1),
                   kept, kk, target)
  {
    hide HasNew, NewItems, ItemsIn, AfterNew, Corrections, Magnitude, Lists.Exact, FromHere, Zrls;
    OneMorePlace(b, band, kk, k);
    var bits, all := OneBit(b, band, k), Corrections(b, band, kk, k);
    var next := w.(lists := w.lists.(refbits := w.lists.refbits + AsNumbers(bits)), refBits := w.refBits + 1);
    NumbersSum(all, bits);
    Associate(kept.refbits, AsNumbers(all), AsNumbers(bits));
    assert next.Settled() == w.Settled();
    assert (all + bits)[w.eobBits..] == all[w.eobBits..] + bits;
    if HasNew(b, band, k) {
      var open := Open(b, band, kk, k, w);
      NewStep(b, band, k, w.r, open);
      ZrlsUnfold(w.r, open);
    }
  }

  lemma NewSettled(b: Block, band: Band, k: nat, w: Work, kept: Lists, kk: nat, target: seq<Item>, t: RefToken, l: Lists)
    requires band.Valid() && k <= band.last && During(b, band, k, w, kept, kk, target) && Magnitude(b, band, k) == 1 && w.r <= 15
    requires t.refbits == w.refBits && !HasRunBits(t) && CodedSymbol(t) == 16 * w.r + 1 && ExtraBitsOf(t, 0) == if b[k] > 0 then 1 else 0
    requires l == w.lists.(tokens := w.lists.tokens + [t])
    ensures l.Exact() && ItemsIn(l) + NewItems(b, band, k + 1, 0, []) == target
    ensures band.first <= k && AfterNew(b, band, band.first) == AfterNew(b, band, k)
  {
    hide HasNew, NewItems, ItemsIn, AfterNew, Corrections, Magnitude, CodedSymbol, HasRunBits, ExtraBitsOf, Lists.Exact, During, Work.Settled, Open;
    var open := NewOpen(b, band, k, w, kept, kk, target);
    TokenSettles(b, band, k, w, kept, kk, target, t);
    NewItemFirst(b, band, k, w.r, open);
    Moved(ItemsIn(w.Settled()), Item(CodedSymbol(t), ExtraBitsOf(t, 0), open), NewItems(b, band, k + 1, 0, []));
  }

  /** A new coefficient: what has been written so far stays. */
  lemma NewWritten(b: Block, band: Band, k: nat, w: Work, kept: Lists, kk: nat, target: seq<Item>, t: RefToken)
    requires band.Valid() && k <= band.last && During(b, band, k, w, kept, kk, target) && Magnitude(b, band, k) == 1 && w.r <= 15
    requires t.refbits == w.refBits && !HasRunBits(t) && CodedSymbol(t) == 16 * w.r + 1 && ExtraBitsOf(t, 0) == if b[k] > 0 then 1 else 0
    ensures var l := w.lists.(tokens := w.lists.tokens + [t]);
            l.Exact() && During(b, band, k + 1, Work(l, 0, 0, 0), l, k + 1, target)
  {
    hide NewItems, ItemsIn, AfterNew, Magnitude, CodedSymbol, HasRunBits, ExtraBitsOf, Lists.Exact, During;
    var l := w.lists.(tokens := w.lists.tokens + [t]);
    NewSettled(b, band, k, w, kept, kk, target, t, l);
    NewIsHere(b, band, k);
    NothingOpen(b, band, k + 1, l, target);
  }

  lemma Moved(items: seq<Item>, item: Item, others: seq<Item>)
    ensures items + ([item] + others) == items + [item] + others
  {
  }

  lemma NewOpen(b: Block, band: Band, k: nat, w: Work, kept: Lists, kk: nat, target: seq<Item>) returns (open: Bits)
    requires band.Valid() && k <= band.last && During(b, band, k, w, kept, kk, target) && Magnitude(b, band, k) == 1
    ensures w.refBits <= |w.lists.refbits| && w.Settled().Exact() && w.eobBits <= |Corrections(b, band, kk, k)| && open == Open(b, band, kk, k, w)
    ensures band.first <= k && AfterNew(b, band, band.first) == AfterNew(b, band, k)
    ensures ItemsIn(w.Settled()) + NewItems(b, band, k, w.r, open) == target
  {
    NewIsHere(b, band, k);
    hide NewItems, ItemsIn, AfterNew, Corrections, Magnitude, HasNew;
    open := Open(b, band, kk, k, w);
  }

  lemma NewIsHere(b: Block, band: Band, k: nat)
    requires band.Valid() && k <= band.last && Magnitude(b, band, k) == 1
    ensures HasNew(b, band, k) && AfterNew(b, band, k) == AfterNew(b, band, k + 1)
    ensures !HasNew(b, band, k + 1) ==> AfterNew(b, band, k + 1) == k + 1
  {
  }

  lemma NewItemFirst(b: Block, band: Band, k: nat, r: nat, corrections: Bits)
    requires band.Valid() && k <= band.last && Magnitude(b, band, k) == 1 && r <= 15
    ensures NewItems(b, band, k, r, corrections)
         == [Item(16 * r + 1, if b[k] > 0 then 1 else 0, corrections)] + NewItems(b, band, k + 1, 0, [])
  {
    hide NewItems, Zrls, HasNew, AfterNew, Magnitude;
    NewIsHere(b, band, k);
    ZrlsFirst(b, band, k, r, corrections);
    ZrlsUnfold(r, corrections);
  }

  lemma EmptyCorrections(b: Block, band: Band, k: nat, l: Lists)
    requires k <= 64
    ensures Corrections(b, band, k, k) == [] && l.refbits + AsNumbers([]) == l.refbits
  {
  }

  lemma SignOfToken(r: nat, positive: bool, refBits: nat)
    requires r <= 15
    ensures var t := RefToken(16 * r + 1 + (if positive then 2 else 0), refBits);
      && CodedSymbol(t) == 16 * r + 1 && !HasRunBits(t) && ExtraBitsOf(t, 0) == if positive then 1 else 0
  {
  }

  // ---------------------------------------------------------------- the end of a block

  /** Behind the last position: the correction bits after the last new coefficient have no token yet. */
  lemma BandEnded(b: Block, band: Band, w: Work, kept: Lists, kk: nat, target: seq<Item>)
    requires band.Valid() && During(b, band, band.last + 1, w, kept, kk, target)
    ensures kk == AfterNew(b, band, band.first) && ItemsIn(kept) == target && kept.Exact() && kept.tokens <= w.lists.tokens
    ensures w.lists.refbits == kept.refbits + AsNumbers(TailBits(b, band)) && w.lists.eobruns == kept.eobruns
    ensures w.eobBits + w.refBits == |TailBits(b, band)|
  {
    hide HasNew, NewItems, ItemsIn, AfterNew, Corrections, Lists.Exact, Magnitude, AsNumbers;
    NoneAtEnd(b, band);
  }

  lemma NoneAtEnd(b: Block, band: Band)
    requires band.Valid()
    ensures !HasNew(b, band, band.last + 1)
  {
    hide Magnitude;
  }

  /** A run begins after what is settled. */
  lemma RunBegins(base: Lists, corrections: Bits)
    requires base.Exact()
    ensures RunBits(1) == 0 && RunToken(1, corrections) == RefToken(0, |corrections|)
    ensures WithRun(base, 1, corrections) == Lists(base.tokens + [RefToken(0, |corrections|)], base.refbits + AsNumbers(corrections), base.eobruns)
  {
    assert Pow2(0) == 1 && Pow2(1) == 2;
    RunLengthOne();
    RunTokenIs(1, corrections);
    assert base.eobruns + [] == base.eobruns;
  }

  lemma RunLengthOne()
    ensures RunBits(1) == 0
  {
    assert Pow2(0) == 1 && Pow2(1) == 2;
    LessByPower(RunBits(1), 1);
  }

  lemma RunIs(base: Lists, run: nat, corrections: Bits)
    requires 0 < run <= MAX_EOB_RUN
    ensures WithRun(base, run, corrections)
         == Lists(base.tokens + [RunToken(run, corrections)], base.refbits + AsNumbers(corrections),
                  if run == 1 then base.eobruns else base.eobruns + [RunLength(run)])
  {
    RunTokenIs(run, corrections);
    assert base.eobruns + [] == base.eobruns;
  }

  /** A run goes on: its symbol asks for one more extra bit exactly at powers of two. */
  lemma NextSymbol(run: nat, before: Bits, tail: Bits)
    requires 0 < run < MAX_EOB_RUN
    ensures RunToken(run + 1, before + tail)
         == RefToken(if run == 1 then 16 else if IsPowerOfTwo(run + 1) then RunToken(run, before).symbol + 16 else RunToken(run, before).symbol,
                     |before| + |tail|)
    ensures RunLength(run + 1) == if run == 1 || IsPowerOfTwo(run + 1) then 0 else RunLength(run) + 1
    ensures RunToken(run, before).symbol + 16 < 256
  {
    NextRun(run);
    RunLengthOne();
    PowerOfRun(run);
  }

  lemma PowerOfRun(run: nat)
    requires 0 < run < MAX_EOB_RUN
    ensures run == 1 ==> RunBits(run + 1) == 1
  {
    if run == 1 {
      assert Pow2(0) == 1 && Pow2(1) == 2 && Pow2(2) == 4;
      LessByPower(RunBits(2), 2);
      LessByPower(0, RunBits(2) + 1);
      SameLength(1, 0, RunBits(2));
    }
  }

  /** The lists of a run that goes on. */
  lemma RunGoesOn(base: Lists, run: nat, before: Bits, tail: Bits)
    requires base.Exact() && 0 < run < MAX_EOB_RUN
    ensures var was, next := WithRun(base, run, before), WithRun(base, run + 1, before + tail);
      && was.tokens == base.tokens + [RunToken(run, before)]
      && was.eobruns == (if run == 1 then base.eobruns else base.eobruns + [RunLength(run)])
      && next.tokens == base.tokens + [RunToken(run + 1, before + tail)]
      && next.refbits == was.refbits + AsNumbers(tail)
      && next.eobruns == base.eobruns + [RunLength(run + 1)]
  {
    RunIs(base, run, before);
    RunIs(base, run + 1, before + tail);
    hide RunToken, RunLength, WithRun, Lists.Exact;
    NumbersSum(before, tail);
    Associate(base.refbits, AsNumbers(before), AsNumbers(tail));
  }

  // ---------------------------------------------------------------- the algorithm

  /** The places after the coefficients of a block: the open run is given up at a new coefficient. */
  ghost predicate RunStands(st0: State, st: State, kept: Lists, kk: nat, first: nat) {
    if kk == first then kept == st0.lists && (st.nextEobToken, st.eobRun, st.eobRefbits) == (st0.nextEobToken, st0.eobRun, st0.eobRefbits)
    else (st.nextEobToken, st.eobRun, st.eobRefbits) == (|kept.tokens|, 0, 0)
  }

  /** The ZRL tokens before a coefficient that is not zero. */
  method WriteZrls(b: Block, band: Band, k: nat, w0: Work, ghost kept: Lists, ghost kk: nat, ghost target: seq<Item>) returns (w: Work)
    requires band.Valid() && k <= band.last && During(b, band, k, w0, kept, kk, target) && Magnitude(b, band, k) >= 1
    ensures During(b, band, k, w, kept, kk, target) && w.r == w0.r % 16 && w.lists.eobruns == w0.lists.eobruns
  {
    hide During, Magnitude;
    w := w0;
    while w.r > 15
      invariant During(b, band, k, w, kept, kk, target) && w.r % 16 == w0.r % 16 && w.lists.eobruns == w0.lists.eobruns
      decreases w.r
    {
      ZrlWritten(b, band, k, w, kept, kk, target);
      w := Work(w.lists.(tokens := w.lists.tokens + [RefToken(0xF0, w.refBits)]), w.r - 16, w.eobBits + w.refBits, 0);
    }
  }

  /** The coefficients of a block. */
  method TokenizeCoefficients(b: Block, band: Band, st0: State) returns (w: Work, st: State, ghost kept: Lists, ghost kk: nat)
    requires band.Valid() && st0.lists.Exact()
    ensures During(b, band, band.last + 1, w, kept, kk, ItemsIn(st0.lists) + NewItems(b, band, band.first, 0, []))
    ensures RunStands(st0, st, kept, kk, band.first) && band.first <= kk <= band.last + 1
    ensures if w.r > 0 || w.eobBits + w.refBits > 0 then kk <= band.last else kk == band.last + 1 && w.lists == kept
    ensures w.eobBits + w.refBits == |TailBits(b, band)| && w.lists.eobruns == st0.lists.eobruns
    ensures (w.r > 0 || w.eobBits + w.refBits > 0) <==> AfterNew(b, band, band.first) <= band.last
  {
    hide During, Magnitude, NewItems, ItemsIn, Lists.Exact;
    w, st, kept, kk := Work(st0.lists, 0, 0, 0), st0, st0.lists, band.first;
    ghost var target := ItemsIn(st0.lists) + NewItems(b, band, band.first, 0, []);
    Starts(b, band, st0.lists);
    for k := band.first to band.last + 1
      invariant During(b, band, k, w, kept, kk, target) && RunStands(st0, st, kept, kk, band.first) && band.first <= kk <= k
      invariant if w.r > 0 || w.eobBits + w.refBits > 0 then kk < k else kk == k && w.lists == kept
      invariant w.lists.eobruns == st0.lists.eobruns
    {
      var absval := Magnitude(b, band, k);
      if absval == 0 {
        ZeroWaits(b, band, k, w, kept, kk, target);
        w := w.(r := w.r + 1);
      } else {
        w := WriteZrls(b, band, k, w, kept, kk, target);
        if absval > 1 {
          CorrectionWaits(b, band, k, w, kept, kk, target);
          assert AsNumbers(OneBit(b, band, k)) == [absval % 2];
          w := w.(lists := w.lists.(refbits := w.lists.refbits + [absval % 2]), refBits := w.refBits + 1);
        } else {
          var t := RefToken(16 * w.r + 1 + (if b[k] > 0 then 2 else 0), w.refBits);
          SignOfToken(w.r, b[k] > 0, w.refBits);
          NewWritten(b, band, k, w, kept, kk, target, t);
          w := Work(w.lists.(tokens := w.lists.tokens + [t]), 0, 0, 0);
          kept, kk := w.lists, k + 1;
          st := State(st.lists, |w.lists.tokens|, 0, 0);
        }
      }
    }
    BandEnded(b, band, w, kept, kk, target);
  }

  lemma NoneBehind(b: Block, band: Band)
    requires band.Valid()
    ensures AfterNew(b, band, band.first) == band.first ==> !HasNew(b, band, band.first)
    ensures AfterNew(b, band, band.first) > band.first ==> HasNew(b, band, band.first)
  {
  }

  lemma ShortTail(b: Block, band: Band)
    requires band.Valid()
    ensures |TailBits(b, band)| <= 63
  {
    FewCorrections(b, band, AfterNew(b, band, band.first), band.last + 1);
  }

  /** What is settled when a block had new coefficients: everything up to the last of them. */
  lemma SettledWithNew(b: Block, band: Band, base0: Lists, run0: nat, before0: Bits, kept: Lists)
    requires band.Valid() && base0.Exact() && run0 < MAX_EOB_RUN && (run0 == 0 ==> before0 == []) && HasNew(b, band, band.first)
    requires WithRun(base0, run0, before0).Exact() && kept.Exact()
    requires ItemsIn(kept) == ItemsIn(WithRun(base0, run0, before0)) + NewItems(b, band, band.first, 0, [])
    ensures var (items, run, after) := ItemsOfOne(b, band, run0, before0);
      && ItemsIn(kept) == ItemsIn(base0) + items
      && (run, after) == if AfterNew(b, band, band.first) > band.last then (0, []) else (1, TailBits(b, band))
  {
    hide WithRun, ItemsIn, NewItems, HasNew, AfterNew, TailBits, EobItems, ItemsOfOne, Lists.Exact;
    RunIsItem(base0, run0, before0);
    OneBlock(b, band, run0, before0);
    Associate(ItemsIn(base0), EobItems(run0, before0), NewItems(b, band, band.first, 0, []));
  }

  /** The token of a run, at the place of the open run or after it; what lies behind is taken back. */
  method WriteRunToken(tokens0: seq<RefToken>, eobruns0: seq<nat>, nextEobToken: nat, eobRun: nat, eobRefbits: nat)
      returns (tokens: seq<RefToken>, eobruns: seq<nat>)
    requires 0 < eobRun <= MAX_EOB_RUN && nextEobToken <= |tokens0|
    requires eobRun > 1 ==> nextEobToken < |tokens0| && tokens0[nextEobToken].symbol + 16 < 256
    requires eobRun > 2 ==> eobruns0 != []
    ensures tokens == tokens0[..nextEobToken] + [RefToken(if eobRun == 1 then 0 else if eobRun == 2 then 16
                                                          else if IsPowerOfTwo(eobRun) then tokens0[nextEobToken].symbol + 16
                                                          else tokens0[nextEobToken].symbol, eobRefbits)]
    ensures eobRun == 1 ==> eobruns == eobruns0
    ensures eobRun == 2 ==> eobruns == eobruns0 + [0]
    ensures eobRun > 2 ==>
      var n := |eobruns0| - 1; eobruns == eobruns0[..n] + [if IsPowerOfTwo(eobRun) then 0 else eobruns0[n] + 1]
  {
    hide IsPowerOfTwo;
    var symbol;
    eobruns := eobruns0;
    if eobRun == 1 {
      symbol := 0;
    } else if eobRun == 2 {
      symbol := 16;
      eobruns := eobruns + [0];
    } else if IsPowerOfTwo(eobRun) {
      symbol := tokens0[nextEobToken].symbol + 16;
      eobruns := eobruns[..|eobruns| - 1] + [0];
    } else {
      symbol := tokens0[nextEobToken].symbol;
      eobruns := eobruns[..|eobruns| - 1] + [eobruns[|eobruns| - 1] + 1];
    }
    tokens := tokens0[..nextEobToken] + [RefToken(symbol, eobRefbits)];
  }

  lemma RunOpens(base: Lists, tail: Bits, st: State)
    requires base.Exact()
    requires st == State(Lists(base.tokens + [RefToken(0, |tail|)], base.refbits + AsNumbers(tail), base.eobruns), |base.tokens|, 1, |tail|)
    ensures Holds(st, base, 1, tail)
  {
    RunBegins(base, tail);
    hide WithRun, RunToken, Lists.Exact;
  }

  /** What ItemsOfOne says for a block without new coefficients, with the lists at its start. */
  lemma OldBlockItems(b: Block, band: Band, base0: Lists, run0: nat, before0: Bits)
    requires band.Valid() && !HasNew(b, band, band.first) && base0.Exact() && run0 < MAX_EOB_RUN && (run0 == 0 ==> before0 == [])
    ensures var tail, (items, run, after) := TailBits(b, band), ItemsOfOne(b, band, run0, before0);
      && WithRun(base0, run0, before0).Exact()
      && (if |before0| + |tail| > 255 then
            run0 > 0 && (run, after) == (1, tail) && ItemsIn(WithRun(base0, run0, before0)) == ItemsIn(base0) + items
          else if run0 + 1 == MAX_EOB_RUN then
            (run, after) == (0, []) && WithRun(base0, run0 + 1, before0 + tail).Exact()
            && ItemsIn(WithRun(base0, run0 + 1, before0 + tail)) == ItemsIn(base0) + items
          else (run, after) == (run0 + 1, before0 + tail) && ItemsIn(base0) == ItemsIn(base0) + items)
  {
    hide WithRun, ItemsIn, HasNew, TailBits, EobItems, ItemsOfOne, Lists.Exact;
    OneBlock(b, band, run0, before0);
    ShortTail(b, band);
    RunIsItem(base0, run0, before0);
    RunIsItem(base0, run0 + 1, before0 + TailBits(b, band));
    assert ItemsIn(base0) + [] == ItemsIn(base0);
  }

  /** A block without new coefficients, after a run: its token is brought up to date. */
  method ExtendRun(ghost base: Lists, run: nat, ghost before: Bits, ghost tail: Bits, tokens0: seq<RefToken>, refbits: seq<nat>, eobruns0: seq<nat>,
                   nextEobToken: nat, eobRefbits: nat) returns (lists: Lists)
    requires base.Exact() && nextEobToken == |base.tokens| && 0 < run < MAX_EOB_RUN && eobRefbits == |before| + |tail|
    requires WithRun(base, run, before).tokens <= tokens0 && eobruns0 == WithRun(base, run, before).eobruns
    requires refbits == WithRun(base, run, before).refbits + AsNumbers(tail)
    ensures lists == WithRun(base, run + 1, before + tail)
  {
    hide WithRun, RunToken, RunLength, IsPowerOfTwo, Lists.Exact;
    RunGoesOn(base, run, before, tail);
    NextSymbol(run, before, tail);
    var n := nextEobToken;
    assert tokens0[..n + 1] == base.tokens + [RunToken(run, before)] && tokens0[..n] == base.tokens && tokens0[n] == RunToken(run, before);
    var tokens, eobruns := WriteRunToken(tokens0, eobruns0, n, run + 1, eobRefbits);
    lists := Lists(tokens, refbits, eobruns);
    if run > 1 {
      assert eobruns0[..|eobruns0| - 1] == base.eobruns;
    }
    assert lists == WithRun(base, run + 1, before + tail);
  }

  lemma HoldsParts(st: State, base: Lists, run: nat, corrections: Bits)
    requires Holds(st, base, run, corrections)
    ensures base.Exact() && run < MAX_EOB_RUN && (run == 0 ==> corrections == []) && st.lists == WithRun(base, run, corrections)
    ensures (st.nextEobToken, st.eobRun, st.eobRefbits) == (|base.tokens|, run, |corrections|) && st.lists.Exact() && base.tokens <= st.lists.tokens
    ensures if run == 0 then st.lists == base else st.lists.tokens == base.tokens + [RunToken(run, corrections)]
  {
    RunIsItem(base, run, corrections);
    if run > 0 {
      RunIs(base, run, corrections);
    }
  }

  /** The tokens of a block, and what becomes of the open run. */
  method TokenizeRefinementBlock(b: Block, band: Band, st0: State, ghost base0: Lists, ghost run0: nat, ghost before0: Bits)
      returns (st: State, ghost base: Lists)
    requires band.Valid() && Holds(st0, base0, run0, before0)
    ensures var (items, run, after) := ItemsOfOne(b, band, run0, before0);
            Holds(st, base, run, after) && ItemsIn(base) == ItemsIn(base0) + items
    ensures var (items, run, after) := ItemsOfOne(b, band, run0, before0);
            (st.eobRun, st.eobRefbits) == (run, |after|)
            && st.lists.Exact() && ItemsIn(st.lists) == ItemsIn(base0) + items + EobItems(run, after)
  {
    hide Holds, During, WithRun, ItemsIn, NewItems, HasNew, AfterNew, TailBits, ItemsOfOne, Lists.Exact, RunToken, EobItems;
    HoldsParts(st0, base0, run0, before0);
    ghost var tail := TailBits(b, band);
    assert [] + tail == tail;
    var w, st1;
    ghost var kept, kk;
    w, st1, kept, kk := TokenizeCoefficients(b, band, st0);
    BandEnded(b, band, w, kept, kk, ItemsIn(st0.lists) + NewItems(b, band, band.first, 0, []));
    NoneBehind(b, band);
    ShortTail(b, band);
    if kk > band.first {
      SettledWithNew(b, band, base0, run0, before0, kept);
    } else {
      OldBlockItems(b, band, base0, run0, before0);
    }
    if w.r > 0 || w.eobBits + w.refBits > 0 {
      var bits := w.eobBits + w.refBits;
      var nextEobToken, eobRun, eobRefbits := st1.nextEobToken, st1.eobRun + 1, st1.eobRefbits + bits;
      if eobRefbits > 255 {
        nextEobToken, eobRun, eobRefbits := nextEobToken + 1, 1, bits;
      }
      if eobRun == 1 {
        base := kept;
        assert |kept.tokens| == nextEobToken && w.lists.tokens[..nextEobToken] == kept.tokens;
        var tokens, eobruns := WriteRunToken(w.lists.tokens, w.lists.eobruns, nextEobToken, eobRun, eobRefbits);
        st := State(Lists(tokens, w.lists.refbits, eobruns), nextEobToken, eobRun, eobRefbits);
        RunOpens(base, tail, st);
      } else {
        var lists := ExtendRun(base0, eobRun - 1, before0, tail, w.lists.tokens, w.lists.refbits, w.lists.eobruns, nextEobToken, eobRefbits);
        st, base := State(lists, nextEobToken, eobRun, eobRefbits), base0;
        if eobRun == MAX_EOB_RUN {
          st, base := State(lists, |lists.tokens|, 0, 0), lists;
          NoRunHolds(lists);
        } else {
          RunHolds(base0, run0 + 1, before0 + tail);
        }
      }
    } else {
      st, base := State(w.lists, st1.nextEobToken, st1.eobRun, st1.eobRefbits), kept;
      NoRunHolds(kept);
    }
    ghost var (items, run, after) := ItemsOfOne(b, band, run0, before0);
    HoldsParts(st, base, run, after);
    RunIsItem(base, run, after);
  }

  lemma NoRunHolds(l: Lists)
    requires l.Exact()
    ensures Holds(State(l, |l.tokens|, 0, 0), l, 0, [])
  {
  }

  lemma RunHolds(base: Lists, run: nat, corrections: Bits)
    requires base.Exact() && 0 < run < MAX_EOB_RUN
    ensures Holds(State(WithRun(base, run, corrections), |base.tokens|, run, |corrections|), base, run, corrections)
  {
  }

  /** The blocks of a restart interval. At its end the open run stays as it is. */
  method TokenizeRefinementInterval(blocks: seq<Block>, band: Band, lists0: Lists) returns (lists: Lists)
    requires band.Valid() && lists0.Exact()
    ensures lists.Exact() && ItemsIn(lists) == ItemsIn(lists0) + ItemsOf(blocks, band, 0, [])
  {
    hide Holds, WithRun, ItemsIn, ItemsOf, ItemsOfOne, Lists.Exact, EobItems;
    var st := State(lists0, |lists0.tokens|, 0, 0);
    ghost var base, run, before := lists0, 0, [];
    NoRunHolds(lists0);
    assert blocks[0..] == blocks;
    for i := 0 to |blocks|
      invariant run < MAX_EOB_RUN && Holds(st, base, run, before) && base.Exact()
      invariant ItemsIn(base) + ItemsOf(blocks[i..], band, run, before) == ItemsIn(lists0) + ItemsOf(blocks, band, 0, [])
    {
      FirstItems(blocks[i..], band, run, before);
      assert blocks[i..][0] == blocks[i] && blocks[i..][1..] == blocks[i + 1..];
      ghost var (items, run1, after) := ItemsOfOne(blocks[i], band, run, before);
      Joined(ItemsIn(base), items, ItemsOf(blocks[i + 1..], band, run1, after));
      st, base := TokenizeRefinementBlock(blocks[i], band, st, base, run, before);
      run, before := run1, after;
      HoldsParts(st, base, run, before);
    }
    lists := st.lists;
    HoldsParts(st, base, run, before);
    RunIsItem(base, run, before);
    NoItem(band, run, before);
    assert blocks[|blocks|..] == [];
  }

  lemma Joined(a: seq<Item>, b: seq<Item>, c: seq<Item>)
    ensures a + (b + c) == a + b + c
  {
  }
}
