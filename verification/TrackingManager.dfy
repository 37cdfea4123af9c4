/** The memory manager of tools/tracking_memory_manager.cc. Each method below that names a thread is one
    critical section or one call of the inner manager; it takes the step of the protocol of the same name. */
module TrackingManager {
  import opened Arithmetic
  import opened MemoryTracking

  class TrackingMemoryManager {
    const cap: nat
    const totalCap: nat
    var allocations: map<nat, nat>
    var bytesInUse: nat
    var numAllocations: int
    var seenOom: bool
    var maxBytesInUse: nat
    var totalAllocations: nat
    var totalBytesAllocated: nat
    ghost var live: set<nat>
    ghost var lostBytes: nat
    ghost var lostBlocks: nat
    ghost var threads: seq<Phase>

    constructor (cap: nat, totalCap: nat, ghost n: nat)
      requires cap < WORD && totalCap < WORD
      ensures Abstract() == Start(cap, totalCap, n) && Valid() && Owned(Abstract())
    {
      this.cap, this.totalCap := cap, totalCap;
      allocations, bytesInUse, numAllocations := map[], 0, 0;
      seenOom, maxBytesInUse, totalAllocations, totalBytesAllocated := false, 0, 0, 0;
      live, lostBytes, lostBlocks, threads := {}, 0, 0, seq(n, i => Idle);
      StartIsAccounted(cap, totalCap, n);
    }

    ghost function Abstract(): State
      reads this
    {
      State(cap, totalCap, allocations, bytesInUse, numAllocations, seenOom, maxBytesInUse, totalAllocations,
            totalBytesAllocated, live, lostBytes, lostBlocks, threads)
    }

    ghost predicate Valid()
      reads this
    {
      Accounted(Abstract())
    }

    /** The first section of Alloc. */
    method ReserveBytes(ghost t: nat, size: nat) returns (ok: bool)
      requires Valid() && Enabled(Abstract(), Reserve(t, size))
      modifies this
      ensures Abstract() == Next(old(Abstract()), Reserve(t, size)) && Valid()
      ensures if ok then threads == old(threads)[t := Reserved(size)] && allocations == old(allocations)
              else seenOom && Abstract() == old(Abstract()).(seenOom := true, totalBytes := totalBytesAllocated)
    {
      hide Accounted, Plus;
      AccountingStep(Abstract(), Reserve(t, size));
      var newTotal := Plus(totalBytesAllocated, size);
      if newTotal < size || (totalCap != 0 && newTotal > totalCap) {
        totalBytesAllocated := totalCap;
        seenOom := true;
        return false;
      }
      var newBytesInUse := Plus(bytesInUse, size);
      if newBytesInUse < size || (cap != 0 && newBytesInUse > cap) {
        seenOom := true;
        return false;
      }
      numAllocations := numAllocations + 1;
      totalAllocations := totalAllocations + 1;
      bytesInUse := newBytesInUse;
      maxBytesInUse := Max(maxBytesInUse, newBytesInUse);
      totalBytesAllocated := newTotal;
      threads := threads[t := Reserved(size)];
      return true;
    }

    /** The inner manager answers: nothing of the accounting changes. */
    ghost method TakeResult(t: nat, result: nat)
      requires Valid() && Enabled(Abstract(), InnerAlloc(t, result))
      modifies this`live, this`threads
      ensures Abstract() == Next(old(Abstract()), InnerAlloc(t, result)) && Valid()
    {
      AccountingStep(Abstract(), InnerAlloc(t, result));
      hide Accounted;
      if result == 0 {
        threads := threads[t := Refused(threads[t].size)];
      } else {
        live, threads := live + {result}, threads[t := Granted(threads[t].size, result)];
      }
    }

    /** The section that enters a block in the map. */
    method RecordBlock(ghost t: nat, result: nat, size: nat)
      requires Valid() && Enabled(Abstract(), Record(t)) && threads[t] == Granted(size, result)
      modifies this
      ensures Abstract() == Next(old(Abstract()), Record(t)) && Valid()
    {
      AccountingStep(Abstract(), Record(t));
      hide Accounted;
      if result in allocations {
        lostBytes, lostBlocks := lostBytes + allocations[result], lostBlocks + 1;
      }
      allocations := allocations[result := size];
      threads := threads[t := Idle];
    }

    /** The section that takes a reservation back when the inner manager had no memory. */
    method RollBack(ghost t: nat, size: nat)
      requires Valid() && Enabled(Abstract(), Rollback(t)) && threads[t] == Refused(size)
      modifies this
      ensures Abstract() == Next(old(Abstract()), Rollback(t)) && Valid()
    {
      AccountingStep(Abstract(), Rollback(t));
      hide Accounted, Minus;
      seenOom := true;
      numAllocations := numAllocations - 1;
      bytesInUse := Minus(bytesInUse, size);
      threads := threads[t := Idle];
    }

    /** The first section of Free. */
    method EraseBlock(ghost t: nat, address: nat) returns (found: bool, size: nat)
      requires Valid() && Enabled(Abstract(), Erase(t, address))
      modifies this
      ensures Abstract() == Next(old(Abstract()), Erase(t, address)) && Valid()
      ensures found <==> address in old(allocations)
      ensures found ==> size == old(allocations)[address] && threads[t] == Erased(size, address)
    {
      AccountingStep(Abstract(), Erase(t, address));
      hide Accounted;
      found, size := address in allocations, 0;
      if found {
        size := allocations[address];
        allocations := allocations - {address};
        threads := threads[t := Erased(size, address)];
      } else {
        threads := threads[t := Stray(address)];
      }
    }

    /** The second section of Free. */
    method ReleaseBytes(ghost t: nat, size: nat)
      requires Valid() && Enabled(Abstract(), Release(t)) && threads[t].size == size
      modifies this
      ensures Abstract() == Next(old(Abstract()), Release(t)) && Valid()
    {
      AccountingStep(Abstract(), Release(t));
      hide Accounted, Minus;
      numAllocations := numAllocations - 1;
      bytesInUse := Minus(bytesInUse, size);
      threads := threads[t := Dropping(threads[t].address)];
    }

    ghost method GiveBack(t: nat)
      requires Valid() && Enabled(Abstract(), InnerFree(t))
      modifies this`live, this`threads
      ensures Abstract() == Next(old(Abstract()), InnerFree(t)) && Valid()
    {
      AccountingStep(Abstract(), InnerFree(t));
      hide Accounted;
      live, threads := live - {threads[t].address}, threads[t := Idle];
    }

    /** Alloc by one thread, with the result that the inner manager would give. */
    method Alloc(ghost t: nat, size: nat, innerResult: nat) returns (result: nat)
      requires Valid() && Enabled(Abstract(), Reserve(t, size)) && innerResult !in live
      modifies this
      ensures Valid() && threads == old(threads)
      ensures result != 0 ==> result == innerResult && allocations == old(allocations)[result := size]
      ensures result != 0 ==> live == old(live) + {result}
      ensures result != 0 ==> bytesInUse == old(bytesInUse) + size && (cap != 0 ==> bytesInUse <= cap)
      ensures result == 0 ==> seenOom && allocations == old(allocations) && bytesInUse == old(bytesInUse) && live == old(live)
      ensures result == 0 <==>
        || innerResult == 0
        || (if totalCap != 0 then old(totalBytesAllocated) + size > totalCap else old(totalBytesAllocated) + size >= WORD)
        || (if cap != 0 then old(bytesInUse) + size > cap else old(bytesInUse) + size >= WORD)
      ensures old(Owned(Abstract())) ==> Owned(Abstract()) && (result != 0 ==> result !in old(allocations))
    {
      hide Accounted, Owned, Plus, Minus, OverTotal, OverCap;
      ReserveOutcome(Abstract(), t, size);
      AllocRefused(size);
      ghost var owned := Owned(Abstract());
      KeepOwners(Abstract(), Reserve(t, size));
      var ok := ReserveBytes(t, size);
      if !ok {
        return 0;
      }
      result := innerResult;
      KeepOwners(Abstract(), InnerAlloc(t, result));
      TakeResult(t, result);
      ReservedSize(Abstract(), t);
      if result != 0 {
        if owned {
          RecordIsNew(Abstract(), t);
        }
        KeepOwners(Abstract(), Record(t));
        RecordBlock(t, result, size);
      } else {
        KeepOwners(Abstract(), Rollback(t));
        RollBack(t, size);
      }
    }

    lemma AllocRefused(size: nat)
      requires Valid() && size < WORD
      ensures OverTotal(totalBytesAllocated, totalCap, size) <==>
        if totalCap != 0 then totalBytesAllocated + size > totalCap else totalBytesAllocated + size >= WORD
      ensures OverCap(bytesInUse, cap, size) <==> if cap != 0 then bytesInUse + size > cap else bytesInUse + size >= WORD
    {
      hide OverTotal, OverCap;
      RefusedExactly(totalBytesAllocated, totalCap, size);
      RefusedExactly(bytesInUse, cap, size);
    }

    lemma KeepOwners(s: State, e: Event)
      requires Enabled(s, e) && !StrayHit(s, e)
      ensures Owned(s) ==> Owned(Next(s, e))
    {
      if Owned(s) {
        OwnershipStep(s, e);
      }
    }

    lemma ReserveOutcome(s: State, t: nat, size: nat)
      requires Accounted(s) && Enabled(s, Reserve(t, size))
      ensures var n := Next(s, Reserve(t, size));
              if OverTotal(s.totalBytes, s.totalCap, size) || OverCap(s.bytesInUse, s.cap, size) then n.threads == s.threads && n.threads[t] == Idle
              else n.threads == s.threads[t := Reserved(size)] && n.bytesInUse == s.bytesInUse + size && (s.cap != 0 ==> n.bytesInUse <= s.cap)
                   && Minus(n.bytesInUse, size) == s.bytesInUse
    {
      hide Owned, MapBytes, ThreadBytes, ThreadCount, Plus, Minus;
      WrapTest(s.bytesInUse, size);
      if s.bytesInUse + size < WORD {
        WrapTest(s.bytesInUse + size, size);
      }
    }

    lemma ReservedSize(s: State, t: nat)
      requires Accounted(s) && t < |s.threads| && Counted(s.threads[t])
      ensures s.threads[t].size <= s.bytesInUse
    {
      SizeCounted(s, t);
    }

    /** Free by one thread. A null address is ignored; an unknown one goes to the inner manager, and leaves the
        accounting as it is. */
    method Free(ghost t: nat, address: nat)
      requires Valid() && t < |threads| && threads[t] == Idle
      modifies this
      ensures Valid() && threads == old(threads)
      ensures address == 0 ==> Abstract() == old(Abstract())
      ensures address != 0 ==> live == old(live) - {address}
      ensures address != 0 && address in old(allocations) ==>
              allocations == old(allocations) - {address} && bytesInUse == old(bytesInUse) - old(allocations)[address]
      ensures address != 0 && address !in old(allocations) ==> Abstract() == old(Abstract()).(live := live)
      ensures old(Owned(Abstract())) ==>
              (Owned(Abstract()) <==> address == 0 || address in old(allocations) || address !in old(live))
    {
      hide Accounted, Owned, Minus;
      if address == 0 {
        return;
      }
      ghost var before := Abstract();
      KeepOwners(Abstract(), Erase(t, address));
      var found, size := EraseBlock(t, address);
      if found {
        ReservedSize(Abstract(), t);
        BytesFit(Abstract(), size);
        KeepOwners(Abstract(), Release(t));
        ReleaseBytes(t, size);
      }
      if Owned(Abstract()) {
        OwnershipKeptIff(Abstract(), InnerFree(t));
      }
      GiveBack(t);
    }

    lemma BytesFit(s: State, size: nat)
      requires Accounted(s) && size <= s.bytesInUse
      ensures Minus(s.bytesInUse, size) == s.bytesInUse - size
    {
      WrapTest(s.bytesInUse, size);
    }

    /** Fails exactly while something is counted, and then changes nothing. */
    method Reset() returns (r: ResetResult)
      requires Valid()
      modifies this
      ensures Valid() && Abstract() == Next(old(Abstract()), Event.Reset)
      ensures r == ResetOutcome(old(Abstract())) != InternalError
      ensures r == Done <==> old(allocations) == map[] && old(lostBlocks) == 0 && forall t :: 0 <= t < |old(threads)| ==> !Counted(old(threads)[t])
    {
      ResetTests(Abstract());
      AccountingStep(Abstract(), Event.Reset);
      hide Accounted;
      if numAllocations != 0 {
        return MemoryLeak;
      }
      if allocations != map[] {
        return InternalError;
      }
      if bytesInUse != 0 {
        return InternalError;
      }
      seenOom, maxBytesInUse, totalAllocations, totalBytesAllocated := false, 0, 0, 0;
      return Done;
    }
  }
}
