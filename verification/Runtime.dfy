/**
 * The trusted allocation runtime: ordered maps searched by predecessor, proved to do what
 * `RuntimeSpec` says over all records.  One method call is one critical section of the lock.
 */
module TrustedRuntime {
  import opened Machine
  import opened OrderedMap
  import opened Arena
  import opened RuntimeSpec
  import opened PredecessorLookup
  import opened StepMeaning

  class Runtime {
    const base: Word
    const capacity: Word
    const arenaValid: bool
    var used: Word
    var types: map<Word32, Word>
    var typeIds: map<Word, Word32>
    var sites: Entries<AllocationSite>
    var sitesById: map<Word32, Word>
    var siteTypes: map<Word32, Word>
    var allocations: Entries<Allocation>
    /** The abstract state, with the history of every block handed out so far. */
    ghost var model: State

    /** The fields represent the abstract state. */
    ghost predicate Represents()
      reads this
    {
      && Sorted(sites) && Sorted(allocations)
      && (arenaValid <==> model.arena.Addressable())
      && model.arena == Arena(base, capacity, used, ToMap(allocations), model.arena.issued)
      && model.types == TypeTable(types, typeIds)
      && model.sites == SiteTable(ToMap(sites), sitesById, siteTypes)
    }

    ghost predicate Valid()
      reads this
    {
      Represents() && Reachable(model)
    }

    constructor (arenaBase: Word, arenaSize: Word)
      ensures Valid() && model == Initial(arenaBase, arenaSize)
    {
      base := arenaBase;
      capacity := arenaSize;
      arenaValid := arenaSize <= UINTPTR_MAX - arenaBase;
      used := 0;
      types, typeIds := map[], map[];
      sites, allocations := [], [];
      sitesById, siteTypes := map[], map[];
      model := Initial(arenaBase, arenaSize);
      new;
      InitialReachable(arenaBase, arenaSize);
    }

    // ----- registration

    method RegisterType(id: Word32, typeHash: Word) returns (ok: bool)
      requires Valid()
      modifies this
      ensures Valid()
      ensures model == Step(old(model), OpRegisterType(id, typeHash)).0
      ensures Flag(ok) == Step(old(model), OpRegisterType(id, typeHash)).1
    {
      StepReachable(model, OpRegisterType(id, typeHash));
      if id == 0 || id in types || typeHash in typeIds {
        return false;
      }
      types := types[id := typeHash];
      typeIds := typeIds[typeHash := id];
      model := Step(model, OpRegisterType(id, typeHash)).0;
      return true;
    }

    method RegisterAllocationSiteId(id: Word32, typeId: Word32) returns (ok: bool)
      requires Valid()
      modifies this
      ensures Valid()
      ensures model == Step(old(model), OpRegisterSiteId(id, typeId)).0
      ensures Flag(ok) == Step(old(model), OpRegisterSiteId(id, typeId)).1
    {
      StepReachable(model, OpRegisterSiteId(id, typeId));
      if id == 0 || typeId !in types || id in siteTypes {
        return false;
      }
      siteTypes := siteTypes[id := types[typeId]];
      model := Step(model, OpRegisterSiteId(id, typeId)).0;
      return true;
    }

    /** Only the neighbours of `begin` are inspected, yet the verdict is about all sites. */
    method RegisterAllocationSite(id: Word32, begin: Word, end: Word, typeId: Word32) returns (ok: bool)
      requires Valid()
      modifies this
      ensures Valid()
      ensures model == Step(old(model), OpRegisterSite(id, begin, end, typeId)).0
      ensures Flag(ok) == Step(old(model), OpRegisterSite(id, begin, end, typeId)).1
    {
      StepReachable(model, OpRegisterSite(id, begin, end, typeId));
      if id == 0 || begin == 0 || begin >= end || typeId !in types || id in sitesById || id in siteTypes {
        IndexedSiteHasType(model, id);
        return false;
      }
      var next := LowerBound(sites, begin);
      NeighboursDecide(model, sites, begin, end, next);
      if next < |sites| && end > sites[next].value.begin {
        return false;
      }
      if next > 0 && sites[next - 1].value.end > begin {
        return false;
      }
      ghost var after := Step(model, OpRegisterSite(id, begin, end, typeId)).0;
      var site := AllocationSite(id, begin, end, typeId, types[typeId]);
      FreshSite(model, id, begin, end, typeId);
      var inserted;
      sites, inserted := Emplace(sites, begin, site);
      sitesById := sitesById[id := begin];
      siteTypes := siteTypes[id := types[typeId]];
      model := after;
      return inserted;
    }

    // ----- allocation

    method Allocate(size: Word, typeId: Word32) returns (p: Word)
      requires Valid()
      modifies this
      ensures Valid()
      ensures model == Step(old(model), OpAllocate(size, typeId)).0
      ensures Address(p) == Step(old(model), OpAllocate(size, typeId)).1
    {
      if typeId !in types || size == 0 {
        return 0;
      }
      TypeIsIndexed(model, typeId);
      p := AllocateWithHash(size, types[typeId], 0);
    }

    method AllocateFromSite(size: Word, siteId: Word32) returns (p: Word)
      requires Valid()
      modifies this
      ensures Valid()
      ensures model == Step(old(model), OpAllocateFromSite(size, siteId)).0
      ensures Address(p) == Step(old(model), OpAllocateFromSite(size, siteId)).1
    {
      if siteId !in siteTypes || size == 0 {
        return 0;
      }
      SiteTypeIsIndexed(model, siteId);
      p := AllocateWithHash(size, siteTypes[siteId], siteId);
    }

    method AllocateFromPc(size: Word, callerPc: Word) returns (p: Word)
      requires Valid()
      modifies this
      ensures Valid()
      ensures model == Step(old(model), OpAllocateFromPc(size, callerPc)).0
      ensures Address(p) == Step(old(model), OpAllocateFromPc(size, callerPc)).1
    {
      var site := FindSite(callerPc);
      if site.None? || size == 0 {
        return 0;
      }
      FoundSiteHasType(model, callerPc);
      p := AllocateWithHash(size, site.value.typeHash, site.value.id);
    }

    method Release(p: Word) returns (ok: bool)
      requires Valid()
      modifies this
      ensures Valid()
      ensures model == Step(old(model), OpRelease(p)).0
      ensures ok == (p in old(model).arena.live)
      ensures forall k :: k in model.arena.live <==> k in old(model).arena.live && k != p
      ensures forall k :: k in model.arena.live ==> model.arena.live[k] == old(model).arena.live[k]
    {
      ReleaseMeans(model, p);
      StepReachable(model, OpRelease(p));
      RemoveAbsent(model.arena, p);
      var it := Find(allocations, p);
      if it == |allocations| {
        return false;
      }
      allocations := Erase(allocations, it);
      model := Step(model, OpRelease(p)).0;
      return true;
    }

    method Reallocate(p: Word, newSize: Word) returns (q: Word)
      requires Valid()
      modifies this
      ensures Valid()
      ensures model == Step(old(model), OpReallocate(p, newSize)).0
      ensures Address(q) == Step(old(model), OpReallocate(p, newSize)).1
    {
      ghost var after := Step(model, OpReallocate(p, newSize)).0;
      StepReachable(model, OpReallocate(p, newSize));
      var it := Find(allocations, p);
      if it == |allocations| {
        return 0;
      }
      if newSize == 0 {
        allocations := Erase(allocations, it);
        model := after;
        return 0;
      }
      var typeHash, siteId := allocations[it].value.typeHash, allocations[it].value.siteId;
      LiveProvenance(model, p);
      q := AllocateWithHash(newSize, typeHash, siteId);
      if q == 0 {
        return 0;
      }
      var again := Find(allocations, p);
      allocations := Erase(allocations, again);
      model := after;
    }

    /** The one place that hands out memory. */
    method AllocateWithHash(size: Word, typeHash: Word, siteId: Word32) returns (p: Word)
      requires Valid() && typeHash in model.types.ids
      requires siteId != 0 ==> siteId in model.sites.types && model.sites.types[siteId] == typeHash
      modifies this
      ensures Valid()
      ensures model == old(model).(arena := old(model).arena.Issue(size, typeHash, siteId).0)
      ensures p == old(model).arena.Issue(size, typeHash, siteId).1
    {
      ghost var after := model.WithArena(model.arena.Issue(size, typeHash, siteId)).0;
      GrantReachable(model, size, typeHash, siteId);
      var aligned := RoundedRequest(size);
      if aligned.None? {
        return 0;
      }
      NextBlockIsFresh(model, size);
      if used > UINTPTR_MAX - base {
        assert false;
      }
      var block := Allocation(base + used, size, typeHash, siteId);
      assert block == model.arena.NextBlock(size, typeHash, siteId);
      var extended, inserted := Emplace(allocations, block.base, block);
      if !inserted {
        assert false;
      }
      allocations := extended;
      used := used + aligned.value;
      model := after;
      return block.base;
    }

    /** The tests a request must pass before anything is inserted. */
    method RoundedRequest(size: Word) returns (aligned: Option<Word>)
      requires Valid()
      ensures aligned == if model.arena.Fits(size) then Some(RoundUp(size)) else None
    {
      UsedWithinCapacity(model);
      if !arenaValid || size == 0 {
        return None;
      }
      aligned := AlignedSize(size);
      if aligned.None? || used > capacity || aligned.value > capacity - used {
        return None;
      }
    }

    // ----- queries

    function AllocationCount(): (n: nat)
      reads this
      requires Valid()
      ensures n == |model.arena.live|
    {
      SizeIsKeyCount(allocations);
      |allocations|
    }

    method AllocationSize(p: Word) returns (r: Option<Word>)
      requires Valid()
      ensures r == if p in model.arena.live then Some(model.arena.live[p].size) else None
    {
      var it := Find(allocations, p);
      return if it == |allocations| then None else Some(allocations[it].value.size);
    }

    method AllocationSiteOf(p: Word) returns (r: Option<Word32>)
      requires Valid()
      ensures r == if p in model.arena.live then Some(model.arena.live[p].siteId) else None
    {
      var it := Find(allocations, p);
      return if it == |allocations| then None else Some(allocations[it].value.siteId);
    }

    method RemainingBytes(p: Word, expectedType: Word) returns (r: CheckResult, bytes: Option<Word>)
      requires Valid()
      ensures (r, bytes) == model.Remaining(p, expectedType)
      ensures r == Untracked <==> Unheld(model, p)
      ensures r == WrongType <==> HeldAsOther(model, p, expectedType)
      ensures forall left: nat :: (r, bytes) == (CheckResult.Ok, Some(left)) <==> EndsAfter(model, p, left, expectedType)
    {
      RemainingVerdicts(model, p, expectedType);
      var found := FindAllocation(p);
      if found.None? {
        return Untracked, None;
      }
      var a := found.value;
      if a.typeHash != expectedType {
        return WrongType, None;
      }
      return CheckResult.Ok, Some(a.size - (p - a.base));
    }

    method Check(p: Word, bytes: Word, expectedType: Word) returns (r: CheckResult)
      requires Valid()
      ensures r == model.Check(p, bytes, expectedType)
      ensures r == Untracked <==> Unheld(model, p)
      ensures r == WrongType <==> HeldAsOther(model, p, expectedType)
      ensures r == OutOfBounds <==> HeldTooShort(model, p, bytes, expectedType)
      ensures r == CheckResult.Ok <==> HeldFor(model, p, bytes, expectedType)
    {
      CheckVerdicts(model, p, bytes, expectedType);
      var found := FindAllocation(p);
      if found.None? {
        return Untracked;
      }
      var a := found.value;
      if a.typeHash != expectedType {
        return WrongType;
      }
      var offset := p - a.base;
      var remaining := a.size - offset;
      return if bytes <= remaining then CheckResult.Ok else OutOfBounds;
    }

    /** One predecessor is inspected; the answer is the live record containing `p`, if any. */
    method FindAllocation(p: Word) returns (r: Option<Allocation>)
      requires Valid()
      ensures r == model.arena.LiveAt(p)
    {
      var it := UpperBound(allocations, p);
      PredecessorDecides(model, allocations, p, it);
      if it == 0 {
        return None;
      }
      var a := allocations[it - 1].value;
      return if p < a.base then None else if p - a.base < a.size then Some(a) else None;
    }

    /** One predecessor is inspected; the answer is the site containing `pc`, if any. */
    method FindSite(pc: Word) returns (r: Option<AllocationSite>)
      requires Valid()
      ensures r == model.sites.At(pc)
    {
      var it := UpperBound(sites, pc);
      PredecessorSiteDecides(model, sites, pc, it);
      if it == 0 {
        return None;
      }
      var site := sites[it - 1].value;
      return if pc >= site.begin && pc < site.end then Some(site) else None;
    }
  }

  lemma UsedWithinCapacity(s: State)
    requires Reachable(s)
    ensures s.arena.used <= s.arena.capacity
  {
    ReachableInv(s);
  }

  /** In a usable arena the wrap guard never fires and the emplaced key is always new. */
  lemma NextBlockIsFresh(s: State, size: Word)
    requires Reachable(s) && s.arena.Fits(size)
    ensures s.arena.used <= UINTPTR_MAX - s.arena.base
    ensures s.arena.base + s.arena.used !in s.arena.live
  {
    ReachableInv(s);
  }

  lemma RemoveAbsent(a: Arena, p: Word)
    ensures p !in a.live ==> a.Remove(p) == a
  {
    if p !in a.live {
      assert a.Remove(p).live == a.live;
    }
  }

  lemma FreshSite(s: State, id: Word32, begin: Word, end: Word, typeId: Word32)
    requires Reachable(s) && s.sites.CanRegister(s.types, id, begin, end, typeId)
    ensures begin !in s.sites.byStart && id !in s.sites.byId
  {
    ReachableInv(s);
    RegisteredSiteIsFresh(s.types, s.sites, id, begin, end, typeId);
  }

  lemma IndexedSiteHasType(s: State, id: Word32)
    requires Reachable(s)
    ensures id in s.sites.byId ==> id in s.sites.types
  {
    ReachableInv(s);
    assert id in s.sites.byId ==> s.sites.EntryOk(s.types, s.sites.byId[id]);
  }

  lemma FoundSiteHasType(s: State, pc: Word)
    requires Reachable(s) && s.sites.At(pc).Some?
    ensures var site := s.sites.At(pc).value;
            && site.typeHash in s.types.ids
            && site.id in s.sites.types && s.sites.types[site.id] == site.typeHash
  {
    ReachableInv(s);
    var b :| s.sites.Holds(b, pc) && s.sites.byStart[b] == s.sites.At(pc).value;
    assert s.sites.EntryOk(s.types, b);
  }

  lemma TypeIsIndexed(s: State, typeId: Word32)
    requires Reachable(s) && typeId in s.types.hashes
    ensures s.types.hashes[typeId] in s.types.ids
  {
    ReachableInv(s);
  }

  lemma SiteTypeIsIndexed(s: State, site: Word32)
    requires Reachable(s) && site in s.sites.types
    ensures s.sites.types[site] in s.types.ids
  {
    ReachableInv(s);
  }
}
