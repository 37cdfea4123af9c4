/** The accounting of tools/tracking_memory_manager.cc as a protocol: any number of threads run Alloc and
    Free, each a sequence of critical sections and calls of the inner manager that interleave freely. */
module MemoryTracking {
  import opened Arithmetic

  /** Where a thread is between two sections. */
  datatype Phase =
    | Idle
    | Reserved(size: nat)                 // counted, the inner manager has not been asked yet
    | Granted(size: nat, address: nat)    // counted, the block is not in the map yet
    | Refused(size: nat)                  // counted, the inner manager had no memory
    | Erased(size: nat, address: nat)     // out of the map, still counted
    | Dropping(address: nat)              // no longer counted, the block is not given back yet
    | Stray(address: nat)                 // was not in the map, is given back all the same

  datatype State = State(
    cap: nat, totalCap: nat,
    allocations: map<nat, nat>,
    bytesInUse: nat, numAllocations: int,
    seenOom: bool, maxBytesInUse: nat, totalAllocations: nat, totalBytes: nat,
    live: set<nat>,                       // the blocks that the inner manager has handed out
    lostBytes: nat, lostBlocks: nat,      // entries of the map that were overwritten, and their bytes
    threads: seq<Phase>)

  datatype Event =
    | Reserve(t: nat, size: nat)
    | InnerAlloc(t: nat, address: nat)    // 0 for a null result
    | Record(t: nat)
    | Rollback(t: nat)
    | Erase(t: nat, address: nat)
    | Release(t: nat)
    | InnerFree(t: nat)
    | Reset

  /** 64-bit addition. */
  function Plus(a: nat, b: nat): nat {
    (a + b) % WORD
  }

  function Minus(a: nat, b: nat): nat {
    (a - b) % WORD
  }

  /** The two refusals of the first section of Alloc. */
  predicate OverTotal(totalBytes: nat, totalCap: nat, size: nat) {
    Plus(totalBytes, size) < size || (totalCap != 0 && Plus(totalBytes, size) > totalCap)
  }

  predicate OverCap(bytesInUse: nat, cap: nat, size: nat) {
    Plus(bytesInUse, size) < size || (cap != 0 && Plus(bytesInUse, size) > cap)
  }

  /** When a thread can take a step. The inner manager hands out no block twice. */
  predicate Enabled(s: State, e: Event) {
    match e
    case Reserve(t, size) => t < |s.threads| && s.threads[t] == Idle && size < WORD
    case InnerAlloc(t, address) => t < |s.threads| && s.threads[t].Reserved? && address !in s.live
    case Record(t) => t < |s.threads| && s.threads[t].Granted?
    case Rollback(t) => t < |s.threads| && s.threads[t].Refused?
    case Erase(t, address) => t < |s.threads| && s.threads[t] == Idle && address != 0
    case Release(t) => t < |s.threads| && s.threads[t].Erased?
    case InnerFree(t) => t < |s.threads| && (s.threads[t].Dropping? || s.threads[t].Stray?)
    case Reset => true
  }

  /** The tests of Reset, in order; the first is the only one that can fail, as is proved below. */
  datatype ResetResult = Done | MemoryLeak | InternalError

  function ResetOutcome(s: State): ResetResult {
    if s.numAllocations != 0 then MemoryLeak
    else if s.allocations != map[] then InternalError
    else if s.bytesInUse != 0 then InternalError
    else Done
  }

  /** One step. */
  function Next(s: State, e: Event): State
    requires Enabled(s, e)
  {
    match e
    case Reserve(t, size) =>
      if OverTotal(s.totalBytes, s.totalCap, size) then s.(totalBytes := s.totalCap, seenOom := true)
      else if OverCap(s.bytesInUse, s.cap, size) then s.(seenOom := true)
      else s.(numAllocations := s.numAllocations + 1, totalAllocations := s.totalAllocations + 1,
              bytesInUse := Plus(s.bytesInUse, size), maxBytesInUse := Max(s.maxBytesInUse, Plus(s.bytesInUse, size)),
              totalBytes := Plus(s.totalBytes, size), threads := s.threads[t := Reserved(size)])
    case InnerAlloc(t, address) =>
      if address == 0 then s.(threads := s.threads[t := Refused(s.threads[t].size)])
      else s.(threads := s.threads[t := Granted(s.threads[t].size, address)], live := s.live + {address})
    case Record(t) =>
      var a := s.threads[t].address;
      s.(allocations := s.allocations[a := s.threads[t].size], threads := s.threads[t := Idle],
         lostBytes := s.lostBytes + (if a in s.allocations then s.allocations[a] else 0),
         lostBlocks := s.lostBlocks + (if a in s.allocations then 1 else 0))
    case Rollback(t) =>
      s.(seenOom := true, numAllocations := s.numAllocations - 1,
         bytesInUse := Minus(s.bytesInUse, s.threads[t].size), threads := s.threads[t := Idle])
    case Erase(t, address) =>
      if address in s.allocations
      then s.(allocations := s.allocations - {address}, threads := s.threads[t := Erased(s.allocations[address], address)])
      else s.(threads := s.threads[t := Stray(address)])
    case Release(t) =>
      s.(numAllocations := s.numAllocations - 1,
         bytesInUse := Minus(s.bytesInUse, s.threads[t].size),
         threads := s.threads[t := Dropping(s.threads[t].address)])
    case InnerFree(t) =>
      s.(live := s.live - {s.threads[t].address}, threads := s.threads[t := Idle])
    case Reset =>
      if ResetOutcome(s) == Done then s.(seenOom := false, maxBytesInUse := 0, totalAllocations := 0, totalBytes := 0) else s
  }

  // ---------------------------------------------------------------- what is counted

  /** A thread between the two ends of the accounting of a block. */
  predicate Counted(p: Phase) {
    p.Reserved? || p.Granted? || p.Refused? || p.Erased?
  }

  function Bytes(p: Phase): nat {
    if p.Reserved? || p.Granted? || p.Refused? || p.Erased? then p.size else 0
  }

  function ThreadBytes(threads: seq<Phase>): nat {
    if threads == [] then 0 else ThreadBytes(threads[..|threads| - 1]) + Bytes(threads[|threads| - 1])
  }

  function ThreadCount(threads: seq<Phase>): nat {
    if threads == [] then 0 else ThreadCount(threads[..|threads| - 1]) + (if Counted(threads[|threads| - 1]) then 1 else 0)
  }

  lemma {:induction false} ThreadUpdate(threads: seq<Phase>, t: nat, p: Phase)
    requires t < |threads|
    ensures ThreadBytes(threads[t := p]) == ThreadBytes(threads) + Bytes(p) - Bytes(threads[t])
    ensures ThreadCount(threads[t := p]) == ThreadCount(threads) + (if Counted(p) then 1 else 0) - (if Counted(threads[t]) then 1 else 0)
    ensures ThreadBytes(threads) >= Bytes(threads[t])
    ensures Counted(threads[t]) ==> ThreadCount(threads) > 0
  {
    var n, next := |threads| - 1, threads[t := p];
    if t < n {
      ThreadUpdate(threads[..n], t, p);
      assert next[..n] == threads[..n][t := p];
    } else {
      assert next[..n] == threads[..n];
    }
  }

  /** The bytes of all blocks in the map. */
  ghost function MapBytes(m: map<nat, nat>): nat
    decreases |m|
  {
    if m == map[] then 0 else
    var k :| k in m;
    m[k] + MapBytes(m - {k})
  }

  lemma {:induction false} MapBytesWithout(m: map<nat, nat>, k: nat)
    requires k in m
    ensures MapBytes(m) == m[k] + MapBytes(m - {k})
    decreases |m|
  {
    var j :| j in m && MapBytes(m) == m[j] + MapBytes(m - {j});
    if j != k {
      MapBytesWithout(m - {j}, k);
      MapBytesWithout(m - {k}, j);
      assert m - {j} - {k} == m - {k} - {j};
    }
  }

  lemma MapBytesAdd(m: map<nat, nat>, k: nat, size: nat)
    requires k !in m
    ensures MapBytes(m[k := size]) == MapBytes(m) + size && |m[k := size]| == |m| + 1
  {
    MapBytesWithout(m[k := size], k);
    assert m[k := size] - {k} == m;
  }

  lemma MapBytesReplace(m: map<nat, nat>, k: nat, size: nat)
    requires k in m
    ensures MapBytes(m[k := size]) == MapBytes(m) + size - m[k] && |m[k := size]| == |m|
  {
    MapBytesRemove(m, k);
    MapBytesAdd(m - {k}, k, size);
    assert (m - {k})[k := size] == m[k := size];
  }

  lemma MapBytesRemove(m: map<nat, nat>, k: nat)
    requires k in m
    ensures MapBytes(m - {k}) == MapBytes(m) - m[k] && |m - {k}| == |m| - 1
  {
    MapBytesWithout(m, k);
    assert (m - {k})[k := m[k]] == m;
  }

  // ---------------------------------------------------------------- the invariant

  predicate Holds(p: Phase) {
    p.Granted? || p.Erased? || p.Dropping?
  }

  /** The counters are exact and within the caps. */
  ghost predicate Accounted(s: State) {
    && s.bytesInUse == MapBytes(s.allocations) + ThreadBytes(s.threads) + s.lostBytes < WORD
    && s.numAllocations == |s.allocations| + ThreadCount(s.threads) + s.lostBlocks
    && (s.lostBlocks == 0 ==> s.lostBytes == 0)
    && s.bytesInUse <= s.maxBytesInUse
    && (s.cap != 0 ==> s.maxBytesInUse <= s.cap)
    && (s.totalCap != 0 ==> s.totalBytes <= s.totalCap)
    && s.totalBytes < WORD && s.cap < WORD && s.totalCap < WORD
  }

  /** Each block handed out is in the map or held by one thread, never both, and no entry was overwritten. */
  ghost predicate Owned(s: State) {
    && 0 !in s.live && s.lostBlocks == 0
    && (forall a :: a in s.allocations ==> a in s.live)
    && (forall t :: 0 <= t < |s.threads| && Holds(s.threads[t]) ==>
          s.threads[t].address in s.live && s.threads[t].address !in s.allocations)
    && (forall t, u :: 0 <= t < u < |s.threads| && Holds(s.threads[t]) && Holds(s.threads[u]) ==>
          s.threads[t].address != s.threads[u].address)
    && (forall a :: a in s.live ==> a in s.allocations || exists t :: 0 <= t < |s.threads| && Holds(s.threads[t]) && s.threads[t].address == a)
  }

  /** The inner manager is given back a block that it has handed out to someone else. */
  predicate StrayHit(s: State, e: Event)
    requires Enabled(s, e)
  {
    e.InnerFree? && s.threads[e.t].Stray? && s.threads[e.t].address in s.live
  }

  /** The test for a wrapped sum is exact. */
  lemma WrapTest(a: nat, b: nat)
    requires a < WORD && b < WORD
    ensures Plus(a, b) < b <==> a + b >= WORD
    ensures a + b < WORD ==> Plus(a, b) == a + b
    ensures a + b >= WORD ==> Plus(a, b) == a + b - WORD
    ensures b <= a ==> Minus(a, b) == a - b
  {
  }

  /** So a reservation is refused exactly if a sum does not fit 64 bits, or is above a cap. */
  lemma RefusedExactly(inUse: nat, cap: nat, size: nat)
    requires inUse < WORD && cap < WORD && size < WORD
    ensures OverCap(inUse, cap, size) <==> if cap != 0 then inUse + size > cap else inUse + size >= WORD
    ensures OverTotal(inUse, cap, size) <==> if cap != 0 then inUse + size > cap else inUse + size >= WORD
  {
    WrapTest(inUse, size);
  }

  lemma ReserveIsAccounted(s: State, t: nat, size: nat)
    requires Accounted(s) && Enabled(s, Reserve(t, size))
    ensures Accounted(Next(s, Reserve(t, size)))
  {
    hide Plus, Minus, MapBytes, ThreadBytes, ThreadCount;
    WrapTest(s.totalBytes, size);
    WrapTest(s.bytesInUse, size);
    ThreadUpdate(s.threads, t, Reserved(size));
  }

  /** A thread moves on and its block stays counted or uncounted: nothing else changes. */
  lemma PhaseIsAccounted(s: State, t: nat, p: Phase, live: set<nat>)
    requires Accounted(s) && t < |s.threads| && Bytes(p) == Bytes(s.threads[t]) && Counted(p) == Counted(s.threads[t])
    ensures Accounted(s.(threads := s.threads[t := p], live := live))
  {
    hide Bytes, Counted, MapBytes, ThreadBytes, ThreadCount;
    ThreadUpdate(s.threads, t, p);
  }

  lemma RecordIsAccounted(s: State, t: nat)
    requires Accounted(s) && Enabled(s, Record(t))
    ensures Accounted(Next(s, Record(t)))
  {
    hide MapBytes, ThreadBytes, ThreadCount;
    ThreadUpdate(s.threads, t, Idle);
    var a, size := s.threads[t].address, s.threads[t].size;
    if a in s.allocations {
      MapBytesReplace(s.allocations, a, size);
    } else {
      MapBytesAdd(s.allocations, a, size);
    }
  }

  lemma EraseIsAccounted(s: State, t: nat, address: nat)
    requires Accounted(s) && Enabled(s, Erase(t, address))
    ensures Accounted(Next(s, Erase(t, address)))
  {
    hide MapBytes, ThreadBytes, ThreadCount;
    if address in s.allocations {
      ThreadUpdate(s.threads, t, Erased(s.allocations[address], address));
      MapBytesRemove(s.allocations, address);
    } else {
      ThreadUpdate(s.threads, t, Stray(address));
    }
  }

  /** Rollback and Release take one block out of the counters. */
  lemma UncountIsAccounted(s: State, t: nat, p: Phase, oom: bool)
    requires Accounted(s) && t < |s.threads| && Counted(s.threads[t]) && !Counted(p)
    ensures Accounted(s.(seenOom := oom, numAllocations := s.numAllocations - 1,
                         bytesInUse := Minus(s.bytesInUse, s.threads[t].size), threads := s.threads[t := p]))
  {
    hide Minus, MapBytes, ThreadBytes, ThreadCount;
    ThreadUpdate(s.threads, t, p);
    SizeCounted(s, t);
    WrapTest(s.bytesInUse, s.threads[t].size);
  }

  /** Every step of every thread keeps the counters exact, whatever addresses are freed. */
  lemma AccountingStep(s: State, e: Event)
    requires Accounted(s) && Enabled(s, e)
    ensures Accounted(Next(s, e))
  {
    hide Accounted, Minus;
    match e
    case Reserve(t, size) => ReserveIsAccounted(s, t, size);
    case InnerAlloc(t, address) =>
      var size := s.threads[t].size;
      if address == 0 {
        PhaseIsAccounted(s, t, Refused(size), s.live);
      } else {
        PhaseIsAccounted(s, t, Granted(size, address), s.live + {address});
      }
    case Record(t) => RecordIsAccounted(s, t);
    case Rollback(t) => UncountIsAccounted(s, t, Idle, true);
    case Erase(t, address) => EraseIsAccounted(s, t, address);
    case Release(t) => UncountIsAccounted(s, t, Dropping(s.threads[t].address), s.seenOom);
    case InnerFree(t) => PhaseIsAccounted(s, t, Idle, s.live - {s.threads[t].address});
    case Reset => ResetIsAccounted(s);
  }

  lemma ResetIsAccounted(s: State)
    requires Accounted(s)
    ensures Accounted(Next(s, Reset))
  {
    hide MapBytes, ThreadBytes, ThreadCount;
    ResetTests(s);
  }

  lemma SizeCounted(s: State, t: nat)
    requires Accounted(s) && t < |s.threads| && Counted(s.threads[t])
    ensures s.threads[t].size <= s.bytesInUse < WORD
  {
    ThreadUpdate(s.threads, t, Idle);
  }

  /** A thread moves on and holds the same block as before, or none as before. */
  lemma SameOwners(s: State, n: State, t: nat, p: Phase)
    requires Owned(s) && t < |s.threads| && n.threads == s.threads[t := p]
    requires n.live == s.live && n.allocations == s.allocations && n.lostBlocks == s.lostBlocks
    requires Holds(p) == Holds(s.threads[t]) && (Holds(p) ==> p.address == s.threads[t].address)
    ensures Owned(n)
  {
    forall a | a in n.live && a !in n.allocations
      ensures exists u :: 0 <= u < |n.threads| && Holds(n.threads[u]) && n.threads[u].address == a
    {
      var u :| 0 <= u < |s.threads| && Holds(s.threads[u]) && s.threads[u].address == a;
      assert Holds(n.threads[u]);
    }
  }

  /** A block changes hands: from the inner manager to a thread, from there to the map, back to a thread,
      and back to the inner manager. */
  lemma NewOwner(s: State, n: State, t: nat, p: Phase, address: nat)
    requires Owned(s) && t < |s.threads| && n.threads == s.threads[t := p] && address != 0
    requires if Holds(s.threads[t]) then s.threads[t].address == address && !Holds(p)
             else (Holds(p) && p.address == address && forall u :: 0 <= u < |s.threads| && Holds(s.threads[u]) ==> s.threads[u].address != address)
    requires forall a :: a != address ==> (a in n.live <==> a in s.live) && (a in n.allocations <==> a in s.allocations)
    requires address in n.allocations ==> !Holds(p) && address in n.live
    requires (address in n.live <==> address in n.allocations || Holds(p)) && n.lostBlocks == 0
    ensures Owned(n)
  {
    forall a | a in n.live && a !in n.allocations
      ensures exists u :: 0 <= u < |n.threads| && Holds(n.threads[u]) && n.threads[u].address == a
    {
      if a == address {
        assert Holds(n.threads[t]);
      } else {
        var u :| 0 <= u < |s.threads| && Holds(s.threads[u]) && s.threads[u].address == a;
        assert Holds(n.threads[u]);
      }
    }
  }

  lemma OwnershipStep(s: State, e: Event)
    requires Owned(s) && Enabled(s, e) && !StrayHit(s, e)
    ensures Owned(Next(s, e))
  {
    hide Plus, Minus, ResetOutcome, OverTotal, OverCap, Owned;
    var n := Next(s, e);
    OwnedFacts(s);
    match e
    case Reserve(t, size) =>
      assert s.threads[t := s.threads[t]] == s.threads;
      SameOwners(s, n, t, n.threads[t]);
    case InnerAlloc(t, address) =>
      if address == 0 {
        SameOwners(s, n, t, n.threads[t]);
      } else {
        NewOwner(s, n, t, n.threads[t], address);
      }
    case Record(t) => NewOwner(s, n, t, Idle, s.threads[t].address);
    case Rollback(t) => SameOwners(s, n, t, Idle);
    case Erase(t, address) =>
      if address in s.allocations {
        NewOwner(s, n, t, n.threads[t], address);
      } else {
        SameOwners(s, n, t, Stray(address));
      }
    case Release(t) => SameOwners(s, n, t, n.threads[t]);
    case InnerFree(t) =>
      if s.threads[t].Stray? {
        assert n.live == s.live;
        SameOwners(s, n, t, Idle);
      } else {
        NewOwner(s, n, t, Idle, s.threads[t].address);
      }
    case Reset => ResetKeepsOwners(s);
  }

  /** Ownership survives a step exactly if no stray address hits a block. */
  lemma OwnershipKeptIff(s: State, e: Event)
    requires Owned(s) && Enabled(s, e)
    ensures Owned(Next(s, e)) <==> !StrayHit(s, e)
  {
    hide Plus, Minus, ResetOutcome, OverTotal, OverCap;
    if StrayHit(s, e) {
      var n, a := Next(s, e), s.threads[e.t].address;
      assert a !in n.live && n.allocations == s.allocations;
      if a !in s.allocations {
        var u :| 0 <= u < |s.threads| && Holds(s.threads[u]) && s.threads[u].address == a;
        assert Holds(n.threads[u]);
      }
    } else {
      hide Owned;
      OwnershipStep(s, e);
    }
  }

  lemma OwnedFacts(s: State)
    requires Owned(s)
    ensures forall t :: 0 <= t < |s.threads| && Holds(s.threads[t]) ==>
      s.threads[t].address in s.live && s.threads[t].address !in s.allocations && s.threads[t].address != 0
    ensures (forall a :: a in s.allocations ==> a in s.live) && s.lostBlocks == 0
  {
  }

  lemma ResetKeepsOwners(s: State)
    requires Owned(s)
    ensures Owned(Next(s, Reset))
  {
  }

  /** Only the first test can fail: when nothing is counted, nothing is in the map and no bytes are. */
  lemma ResetTests(s: State)
    requires Accounted(s)
    ensures ResetOutcome(s) != InternalError
    ensures ResetOutcome(s) == Done <==>
            s.allocations == map[] && s.lostBlocks == 0 && forall t :: 0 <= t < |s.threads| ==> !Counted(s.threads[t])
    ensures ResetOutcome(s) == Done ==> s.bytesInUse == 0
  {
    NoneCounted(s.threads);
  }

  lemma {:induction false} NoneCounted(threads: seq<Phase>)
    ensures ThreadCount(threads) == 0 <==> forall t :: 0 <= t < |threads| ==> !Counted(threads[t])
    ensures ThreadCount(threads) == 0 ==> ThreadBytes(threads) == 0
  {
    if threads != [] {
      var n := |threads| - 1;
      NoneCounted(threads[..n]);
      assert forall t :: 0 <= t < n ==> threads[..n][t] == threads[t];
    }
  }

  /** No entry of the map is overwritten. */
  lemma RecordIsNew(s: State, t: nat)
    requires Owned(s) && Enabled(s, Record(t))
    ensures s.threads[t].address !in s.allocations
  {
  }

  // ---------------------------------------------------------------- whole runs

  function Start(cap: nat, totalCap: nat, n: nat): State {
    State(cap, totalCap, map[], 0, 0, false, 0, 0, 0, {}, 0, 0, seq(n, i => Idle))
  }

  /** A run: any interleaving of steps, each enabled when it is taken. */
  predicate IsRun(s: State, events: seq<Event>)
    decreases |events|
  {
    events == [] || (Enabled(s, events[0]) && IsRun(Next(s, events[0]), events[1..]))
  }

  function After(s: State, events: seq<Event>): State
    requires IsRun(s, events)
    decreases |events|
  {
    if events == [] then s else After(Next(s, events[0]), events[1..])
  }

  lemma StartIsAccounted(cap: nat, totalCap: nat, n: nat)
    requires cap < WORD && totalCap < WORD
    ensures Accounted(Start(cap, totalCap, n)) && Owned(Start(cap, totalCap, n)) && NoStrays(Start(cap, totalCap, n))
  {
    NoneCounted(Start(cap, totalCap, n).threads);
  }

  lemma {:induction false} RunIsAccounted(s: State, events: seq<Event>)
    requires Accounted(s) && IsRun(s, events)
    ensures Accounted(After(s, events)) && After(s, events).cap == s.cap && After(s, events).totalCap == s.totalCap
    ensures |After(s, events).threads| == |s.threads|
    decreases |events|
  {
    hide Accounted;
    if events != [] {
      AccountingStep(s, events[0]);
      RunIsAccounted(Next(s, events[0]), events[1..]);
    }
  }

  /** No step of the run hits a block with a stray address. */
  predicate NoStrayHit(s: State, events: seq<Event>)
    requires IsRun(s, events)
    decreases |events|
  {
    events == [] || (!StrayHit(s, events[0]) && NoStrayHit(Next(s, events[0]), events[1..]))
  }

  ghost predicate OwnedThroughout(s: State, events: seq<Event>)
    requires IsRun(s, events)
    decreases |events|
  {
    Owned(s) && (events == [] || OwnedThroughout(Next(s, events[0]), events[1..]))
  }

  /** What a caller can ensure: a free names an address that is in the map, or null. */
  predicate FreesMapped(s: State, events: seq<Event>)
    requires IsRun(s, events)
    decreases |events|
  {
    events == [] ||
      ((events[0].Erase? ==> events[0].address in s.allocations) && FreesMapped(Next(s, events[0]), events[1..]))
  }

  /** Every block has one owner in all states of a run if and only if no stray address hits a block. */
  lemma {:induction false} OwnedThroughoutIff(s: State, events: seq<Event>)
    requires Owned(s) && IsRun(s, events)
    ensures OwnedThroughout(s, events) <==> NoStrayHit(s, events)
    ensures NoStrayHit(s, events) ==> Owned(After(s, events))
    decreases |events|
  {
    hide Owned, Next, StrayHit, Enabled;
    if events != [] {
      OwnershipKeptIff(s, events[0]);
      if !StrayHit(s, events[0]) {
        OwnedThroughoutIff(Next(s, events[0]), events[1..]);
      } else {
        NotOwned(Next(s, events[0]), events[1..]);
      }
    }
  }

  lemma NotOwned(s: State, events: seq<Event>)
    requires IsRun(s, events) && !Owned(s)
    ensures !OwnedThroughout(s, events)
  {
  }

  predicate NoStrays(s: State) {
    forall t :: 0 <= t < |s.threads| ==> !s.threads[t].Stray?
  }

  /** A caller that frees mapped addresses only is safe. */
  lemma {:induction false} MappedFreesAreSafe(s: State, events: seq<Event>)
    requires NoStrays(s) && IsRun(s, events) && FreesMapped(s, events)
    ensures NoStrayHit(s, events)
    decreases |events|
  {
    if events != [] {
      assert NoStrays(Next(s, events[0])) && !StrayHit(s, events[0]);
      MappedFreesAreSafe(Next(s, events[0]), events[1..]);
    }
  }

  lemma RunStep(s: State, events: seq<Event>, i: nat)
    requires i < |events| && Enabled(s, events[i]) && IsRun(Next(s, events[i]), events[i + 1..])
    ensures IsRun(s, events[i..]) && After(s, events[i..]) == After(Next(s, events[i]), events[i + 1..])
    ensures NoStrayHit(s, events[i..]) <==> !StrayHit(s, events[i]) && NoStrayHit(Next(s, events[i]), events[i + 1..])
  {
    assert events[i..][0] == events[i] && events[i..][1..] == events[i + 1..];
  }

  /** The run that breaks ownership once an address a that is not in the map is freed by thread t. */
  function Breaking(s: State, t: nat, u: nat, a: nat): seq<Event> {
    if a in s.live then [Erase(t, a), InnerFree(t)]
    else [Erase(t, a), Reserve(u, 0), InnerAlloc(u, a), InnerFree(t)]
  }

  lemma LiveStrayBreaks(s: State, t: nat, u: nat, a: nat)
    requires t < |s.threads| && s.threads[t] == Idle && a != 0 && a !in s.allocations && a in s.live
    ensures IsRun(s, Breaking(s, t, u, a)) && !NoStrayHit(s, Breaking(s, t, u, a))
  {
    var e := Breaking(s, t, u, a);
    var s1 := Next(s, e[0]);
    var s2 := Next(s1, e[1]);
    assert e[2..] == [] && IsRun(s2, []);
    hide IsRun, NoStrayHit, After;
    RunStep(s1, e, 1);
    RunStep(s, e, 0);
    assert e[0..] == e;
  }

  lemma FreeStrayBreaks(s: State, t: nat, u: nat, a: nat)
    requires Accounted(s) && t < |s.threads| && u < |s.threads| && t != u && s.threads[t] == s.threads[u] == Idle
    requires a != 0 && a !in s.allocations && a !in s.live
    ensures IsRun(s, Breaking(s, t, u, a)) && !NoStrayHit(s, Breaking(s, t, u, a))
  {
    hide MapBytes, ThreadBytes, ThreadCount;
    var e := Breaking(s, t, u, a);
    AlwaysRoomForNothing(s, u);
    hide Accounted, OverTotal, OverCap;
    var s1 := Next(s, e[0]);
    var s2 := Next(s1, e[1]);
    var s3 := Next(s2, e[2]);
    var s4 := Next(s3, e[3]);
    assert e[4..] == [] && IsRun(s4, []);
    hide IsRun, NoStrayHit, After;
    RunStep(s3, e, 3);
    RunStep(s2, e, 2);
    RunStep(s1, e, 1);
    RunStep(s, e, 0);
    assert e[0..] == e;
  }

  /** No other caller is safe: as soon as an address that is not in the map is freed while another thread is
      idle, the run can continue so that a block is given back that someone else has. */
  lemma OtherFreesCanBreak(s: State, t: nat, u: nat, a: nat)
    requires Accounted(s) && Owned(s) && t < |s.threads| && u < |s.threads| && t != u && s.threads[t] == s.threads[u] == Idle
    requires a != 0 && a !in s.allocations
    ensures IsRun(s, Breaking(s, t, u, a)) && !NoStrayHit(s, Breaking(s, t, u, a))
    ensures !OwnedThroughout(s, Breaking(s, t, u, a))
  {
    hide *;
    if a in s.live {
      LiveStrayBreaks(s, t, u, a);
    } else {
      FreeStrayBreaks(s, t, u, a);
    }
    OwnedThroughoutIff(s, Breaking(s, t, u, a));
  }

  /** An allocation of no bytes is never refused by the caps. */
  lemma AlwaysRoomForNothing(s: State, u: nat)
    requires s.bytesInUse < WORD && s.totalBytes < WORD && (s.totalCap != 0 ==> s.totalBytes <= s.totalCap)
    requires (s.cap != 0 ==> s.bytesInUse <= s.cap) && u < |s.threads|
    ensures !OverTotal(s.totalBytes, s.totalCap, 0) && !OverCap(s.bytesInUse, s.cap, 0)
  {
  }

  ghost predicate Quiescent(s: State) {
    forall t :: 0 <= t < |s.threads| ==> s.threads[t] == Idle
  }

  /** After any interleaving, whatever is freed, the bytes in use are those of the mapped blocks, of the blocks
      whose entry was overwritten, and of what the threads have in hand; a cap is never exceeded; and only the
      first test of Reset can fail. */
  lemma CountersOverRuns(cap: nat, totalCap: nat, n: nat, events: seq<Event>)
    requires cap < WORD && totalCap < WORD && IsRun(Start(cap, totalCap, n), events)
    ensures var s := After(Start(cap, totalCap, n), events);
            && s.bytesInUse == MapBytes(s.allocations) + ThreadBytes(s.threads) + s.lostBytes
            && (cap != 0 ==> s.bytesInUse <= s.maxBytesInUse <= cap)
            && (totalCap != 0 ==> s.totalBytes <= totalCap)
            && ResetOutcome(s) != InternalError
            && (Quiescent(s) ==> (ResetOutcome(s) == Done <==> s.allocations == map[] && s.lostBlocks == 0))
  {
    StartIsAccounted(cap, totalCap, n);
    RunIsAccounted(Start(cap, totalCap, n), events);
    ResetTests(After(Start(cap, totalCap, n), events));
  }

  /** If moreover no stray address hits a block, then no entry of the map is overwritten; when all threads are
      idle, exactly the mapped blocks are outstanding, and Reset succeeds exactly when there are none. */
  lemma AccountingOverRuns(cap: nat, totalCap: nat, n: nat, events: seq<Event>)
    requires cap < WORD && totalCap < WORD && IsRun(Start(cap, totalCap, n), events)
    requires NoStrayHit(Start(cap, totalCap, n), events)
    ensures var s := After(Start(cap, totalCap, n), events);
            && s.bytesInUse == MapBytes(s.allocations) + ThreadBytes(s.threads)
            && s.lostBlocks == 0
            && (Quiescent(s) ==> s.live == s.allocations.Keys && (ResetOutcome(s) == Done <==> s.live == {}))
            && (Quiescent(s) && s.live != {} ==> ResetOutcome(s) == MemoryLeak)
  {
    StartIsAccounted(cap, totalCap, n);
    RunIsAccounted(Start(cap, totalCap, n), events);
    OwnedThroughoutIff(Start(cap, totalCap, n), events);
    var s := After(Start(cap, totalCap, n), events);
    ResetTests(s);
    assert s.allocations == map[] <==> s.allocations.Keys == {};
  }

  /** Threads 0 and 1 both free block 7; between the two returns to the inner manager thread 2 gets it. */
  const DOUBLE_FREE: seq<Event> := [
    Reserve(0, 1), InnerAlloc(0, 7), Record(0), Erase(0, 7), Erase(1, 7), InnerFree(1),
    Reserve(2, 1), InnerAlloc(2, 7), Record(2), Release(0), InnerFree(0)]

  /** The states after 3, 6 and 11 steps. */
  const MAPPED := State(0, 0, map[7 := 1], 1, 1, false, 1, 1, 1, {7}, 0, 0, [Idle, Idle, Idle])
  const STOLEN := State(0, 0, map[], 1, 1, false, 1, 1, 1, {}, 0, 0, [Erased(1, 7), Idle, Idle])
  const LEAKED := State(0, 0, map[7 := 1], 1, 1, false, 2, 2, 2, {}, 0, 0, [Idle, Idle, Idle])

  lemma UntilMapped()
    requires IsRun(MAPPED, DOUBLE_FREE[3..])
    ensures IsRun(Start(0, 0, 3), DOUBLE_FREE) && After(Start(0, 0, 3), DOUBLE_FREE) == After(MAPPED, DOUBLE_FREE[3..])
    ensures NoStrayHit(Start(0, 0, 3), DOUBLE_FREE) ==> NoStrayHit(MAPPED, DOUBLE_FREE[3..])
  {
    hide IsRun, After, NoStrayHit;
    var e := DOUBLE_FREE;
    var s0 := Start(0, 0, 3);
    var s1 := Next(s0, e[0]);
    var s2 := Next(s1, e[1]);
    assert s0.threads == [Idle, Idle, Idle];
    assert Next(s2, e[2]) == MAPPED;
    RunStep(s2, e, 2);
    RunStep(s1, e, 1);
    RunStep(s0, e, 0);
    assert e[0..] == e;
  }

  lemma UntilStolen()
    requires IsRun(STOLEN, DOUBLE_FREE[6..])
    ensures IsRun(MAPPED, DOUBLE_FREE[3..]) && After(MAPPED, DOUBLE_FREE[3..]) == After(STOLEN, DOUBLE_FREE[6..])
    ensures !NoStrayHit(MAPPED, DOUBLE_FREE[3..])
  {
    hide IsRun, After, NoStrayHit;
    var e := DOUBLE_FREE;
    var s4 := Next(MAPPED, e[3]);
    var s5 := Next(s4, e[4]);
    assert Next(s5, e[5]) == STOLEN;
    RunStep(s5, e, 5);
    RunStep(s4, e, 4);
    RunStep(MAPPED, e, 3);
  }

  lemma UntilLeaked()
    ensures IsRun(STOLEN, DOUBLE_FREE[6..]) && After(STOLEN, DOUBLE_FREE[6..]) == LEAKED
  {
    var e := DOUBLE_FREE;
    assert e[11..] == [] && IsRun(LEAKED, []) && After(LEAKED, []) == LEAKED;
    hide IsRun, After, NoStrayHit;
    var s7 := Next(STOLEN, e[6]);
    var s8 := Next(s7, e[7]);
    var s9 := Next(s8, e[8]);
    var s10 := Next(s9, e[9]);
    assert Next(s10, e[10]) == LEAKED;
    RunStep(s10, e, 10);
    RunStep(s9, e, 9);
    RunStep(s8, e, 8);
    RunStep(s7, e, 7);
    RunStep(STOLEN, e, 6);
  }

  /** Without the condition the statement fails: after a double free all threads are idle, one block is mapped
      and none is outstanding, and Reset reports a leak. */
  lemma DoubleFreeLeaks()
    ensures var s0 := Start(0, 0, 3);
            && IsRun(s0, DOUBLE_FREE) && !NoStrayHit(s0, DOUBLE_FREE)
            && var s := After(s0, DOUBLE_FREE);
               Quiescent(s) && s.live == {} && s.allocations.Keys == {7} && ResetOutcome(s) == MemoryLeak
  {
    hide IsRun, After, NoStrayHit, Next;
    UntilLeaked();
    UntilStolen();
    UntilMapped();
  }

  // ---------------------------------------------------------------- running out of memory

  /** After the total cap has been hit once, no further byte is granted until Reset, whatever is freed. */
  ghost predicate Exhausted(s: State) {
    s.totalCap != 0 && s.totalBytes == s.totalCap < WORD
  }

  predicate NoReset(events: seq<Event>) {
    forall i :: 0 <= i < |events| ==> events[i] != Reset
  }

  lemma ExhaustedRefuses(s: State, size: nat)
    requires Exhausted(s) && 0 < size < WORD
    ensures OverTotal(s.totalBytes, s.totalCap, size)
  {
    WrapTest(s.totalBytes, size);
  }

  lemma {:induction false} TotalCapIsFinal(s: State, events: seq<Event>)
    requires Exhausted(s) && IsRun(s, events) && NoReset(events)
    ensures Exhausted(After(s, events))
    decreases |events|
  {
    if events != [] {
      if events[0].Reserve? && events[0].size > 0 {
        ExhaustedRefuses(s, events[0].size);
      }
      assert Exhausted(Next(s, events[0]));
      TotalCapIsFinal(Next(s, events[0]), events[1..]);
    }
  }

  lemma TotalCapExhausts(s: State, t: nat, size: nat)
    requires Accounted(s) && Enabled(s, Reserve(t, size)) && OverTotal(s.totalBytes, s.totalCap, size)
    ensures Exhausted(Next(s, Reserve(t, size))) <==> s.totalCap != 0
    ensures s.totalCap == 0 ==> Next(s, Reserve(t, size)).totalBytes == 0
  {
  }
}
