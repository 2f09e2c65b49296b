/** What holds of every accepted policy, from its registration through every later run. */
module PolicyGuarantees {
  import opened Machine
  import opened Arena
  import opened RuntimeSpec
  import opened RuntimeRuns
  import opened TrustedRuntime
  import opened TypeHash
  import opened PolicyTables
  import opened PolicyGenerators
  import opened PolicyRegistration
  import opened PolicyRuntimes
  import opened Names

  // ----- wasm policies

  /** A fresh runtime after both registration functions of a wasm header. */
  ghost function WasmRegistered(t: Tables, arenaBase: Word, capacity: Word): State
    requires SitesNamed(t.types, t.sites)
  {
    Run(Run(Initial(arenaBase, capacity), TypeOps(t.types)), SiteIdOps(t.types, t.sites))
  }

  /** Tables as the wasm generator emits them, with numbers that fit a `uint32_t`. */
  ghost predicate WasmTables(t: Tables, base: int) {
    SitesNamed(t.types, t.sites) && NumberedFrom(t.sites, base) && Registrable(t.types)
  }

  lemma WasmTablesEmitted(policy: Policy, boundary: Boundary, base: int, importStem: string)
    requires WasmAccepts(policy, boundary, base, importStem)
    ensures var t := TablesOf(policy, boundary, base);
            && SitesNamed(t.types, t.sites) && NumberedFrom(t.sites, base)
            && (|Composed(policy.types, boundary.types)| <= UINT32_MAX ==> WasmTables(t, base))
  {
    var t := TablesOf(policy, boundary, base);
    EmittedTables(policy, boundary, base, importStem);
    AllPrecise(policy.allocations);
    if |Composed(policy.types, boundary.types)| <= UINT32_MAX {
      EmittedTypesRegistrable(t.types, |Composed(policy.types, boundary.types)|);
    }
  }

  /**
   * Registration of an accepted policy on a fresh runtime succeeds exactly when its type numbers
   * survive truncation to 32 bits, and then binds each SiteId to the type declared for it.
   */
  lemma WasmPolicyRegisters(t: Tables, base: int, arenaBase: Word, capacity: Word)
    requires SitesNamed(t.types, t.sites) && NumberedFrom(t.sites, base)
    ensures var s := Initial(arenaBase, capacity);
            && (AllOk(s, TypeOps(t.types)) <==> Registrable(t.types))
            && (Registrable(t.types) ==>
                  && AllOk(Run(s, TypeOps(t.types)), SiteIdOps(t.types, t.sites))
                  && TypesBound(WasmRegistered(t, arenaBase, capacity).types, t.types)
                  && SiteIdsBound(WasmRegistered(t, arenaBase, capacity).sites.types, t.sites, base))
  {
    var s := Initial(arenaBase, capacity);
    TypesAccepted(s, t.types);
    if Registrable(t.types) {
      SiteIdsAccepted(Run(s, TypeOps(t.types)), t.types, t.sites, base);
    }
  }

  /** A step that registers nothing. */
  predicate Client(op: Op) {
    !op.OpRegisterType? && !op.OpRegisterSiteId? && !op.OpRegisterSite?
  }

  predicate Clients(ops: seq<Op>) {
    forall i :: 0 <= i < |ops| ==> Client(ops[i])
  }

  lemma {:induction false} ClientsKeepTables(s: State, ops: seq<Op>)
    requires Clients(ops)
    ensures Run(s, ops).types == s.types && Run(s, ops).sites == s.sites
    decreases |ops|
  {
    if ops != [] {
      assert Client(ops[0]);
      ClientsKeepTables(Step(s, ops[0]).0, ops[1..]);
    }
  }

  /**
   * In every later state, a SiteId outside the policy's range is refused without effect, and one
   * inside it allocates exactly as an object of its declared type.
   */
  lemma SiteIdsDecide(t: Tables, base: int, arenaBase: Word, capacity: Word, ops: seq<Op>, size: Word, id: Word32)
    requires WasmTables(t, base) && Clients(ops)
    ensures var s := Run(WasmRegistered(t, arenaBase, capacity), ops);
            && (base < id <= base + |t.sites| ==>
                  s.AllocateFromSite(size, id)
                  == s.WithArena(s.arena.Issue(size, HashOf(t.sites[id - base - 1].typeName), id)))
            && (!(base < id <= base + |t.sites|) ==> s.AllocateFromSite(size, id) == (s, 0))
  {
    WasmPolicyRegisters(t, base, arenaBase, capacity);
    ClientsKeepTables(WasmRegistered(t, arenaBase, capacity), ops);
  }

  predicate RangesApart(base: int, count: nat, base': int, count': nat) {
    count == 0 || count' == 0 || base + count <= base' || base' + count' <= base
  }

  /**
   * Two policies on runtimes of their own: no site of one is known to the other, in any state
   * the other reaches, exactly when their ranges of numbers do not meet.
   */
  lemma NamespacesSeparate(t: Tables, base: int, u: Tables, base': int, arenaBase: Word, capacity: Word, ops: seq<Op>)
    requires WasmTables(t, base) && WasmTables(u, base') && Clients(ops)
    ensures var s := Run(WasmRegistered(t, arenaBase, capacity), ops);
            RangesApart(base, |t.sites|, base', |u.sites|) <==>
            forall k :: 0 <= k < |u.sites| ==> Bits32(u.sites[k].siteId) !in s.sites.types
  {
    WasmPolicyRegisters(t, base, arenaBase, capacity);
    ClientsKeepTables(WasmRegistered(t, arenaBase, capacity), ops);
    RangesDecide(WasmRegistered(t, arenaBase, capacity).sites.types, t.sites, base, u.sites, base');
  }

  lemma RangesDecide(types: map<Word32, Word>, sites: seq<SiteRecord>, base: int, sites': seq<SiteRecord>, base': int)
    requires NumberedFrom(sites, base) && NumberedFrom(sites', base') && SiteIdsBound(types, sites, base)
    ensures RangesApart(base, |sites|, base', |sites'|) <==>
            forall k :: 0 <= k < |sites'| ==> Bits32(sites'[k].siteId) !in types
  {
    assert forall k :: 0 <= k < |sites'| ==> Bits32(sites'[k].siteId) == base' + k + 1;
    if !RangesApart(base, |sites|, base', |sites'|) {
      var k := if base <= base' then 0 else base - base';
      assert Bits32(sites'[k].siteId) in types;
    }
  }

  // ----- from a replaced call to its object

  /** Allocation `i` is the one site whose allocator bears the name of local number `i + 1`. */
  lemma CallNamesOneSite(
      policy: Policy, boundary: Boundary, base: int, importStem: string, stem: string, i: nat)
    requires WasmAccepts(policy, boundary, base, importStem) && i < |policy.allocations|
    ensures var sites := TablesOf(policy, boundary, base).sites;
            && i < |sites|
            && sites[i].siteId == base + i + 1 <= UINT32_MAX && sites[i].typeName == policy.allocations[i].typeName
            && forall k :: 0 <= k < |sites| ==>
              (SiteName(stem, sites[k].localId) == SiteName(stem, i + 1) <==> k == i)
  {
    var sites := TablesOf(policy, boundary, base).sites;
    AllPrecise(policy.allocations);
    AllPrecise(policy.allocations[..i]);
    SiteOfAllocation(policy.allocations, HelperTypes(boundary.helpers), base, i);
    forall k | 0 <= k < |sites|
      ensures SiteName(stem, sites[k].localId) == SiteName(stem, i + 1) <==> k == i
    {
      SiteNamesDiffer(stem, sites[k].localId, i + 1);
    }
  }

  lemma SiteAllocates(
      t: Tables, base: int, arenaBase: Word, capacity: Word, ops: seq<Op>, size: Word, k: nat, typeName: Name)
    requires WasmTables(t, base) && Clients(ops) && k < |t.sites| && t.sites[k].typeName == typeName
    ensures var s, id := Run(WasmRegistered(t, arenaBase, capacity), ops), Bits32(base + k + 1);
            s.AllocateFromSite(size, id) == s.WithArena(s.arena.Issue(size, HashOf(typeName), id))
  {
    var id := Bits32(base + k + 1);
    assert id == base + k + 1;
    SiteIdsDecide(t, base, arenaBase, capacity, ops, size, id);
    assert t.sites[id - base - 1] == t.sites[k];
  }

  /** A call of the allocator that replaces a `malloc` asks for an object of the declared type. */
  lemma ReplacedCallAllocates(
      policy: Policy, boundary: Boundary, base: int, importStem: string,
      arenaBase: Word, capacity: Word, ops: seq<Op>, size: Word, i: nat)
    requires WasmAccepts(policy, boundary, base, importStem) && i < |policy.allocations|
    requires |Composed(policy.types, boundary.types)| <= UINT32_MAX && Clients(ops)
    ensures var t := TablesOf(policy, boundary, base);
            && SitesNamed(t.types, t.sites)
            && var s := Run(WasmRegistered(t, arenaBase, capacity), ops);
            s.AllocateFromSite(size, Bits32(base + i + 1))
            == s.WithArena(s.arena.Issue(size, HashOf(policy.allocations[i].typeName), Bits32(base + i + 1)))
  {
    var t := TablesOf(policy, boundary, base);
    WasmTablesEmitted(policy, boundary, base, importStem);
    CallNamesOneSite(policy, boundary, base, importStem, "", i);
    SiteAllocates(t, base, arenaBase, capacity, ops, size, i, policy.allocations[i].typeName);
  }

  // ----- native policies

  /** Sites numbered from 1 on, each of a type of the table. */
  predicate NativeTables(ids: seq<TypeEntry>, sites: seq<SiteRecord>) {
    && SitesNamed(ids, sites) && |sites| <= UINT32_MAX
    && forall k :: 0 <= k < |sites| ==> sites[k].siteId == k + 1
  }

  /** A policy and boundary the native generator accepts, whose header compiles. */
  ghost predicate NativeUsable(policy: Policy, boundary: Boundary) {
    && NativeAccepts(policy, boundary)
    && |Composed(policy.types, boundary.types)| <= UINT32_MAX
    && |PreciseTypes(policy.allocations)| + |boundary.helpers| <= UINT32_MAX
  }

  lemma NativeTablesEmitted(policy: Policy, boundary: Boundary)
    requires NativeUsable(policy, boundary)
    ensures var t := TablesOf(policy, boundary, 0);
            NativeTables(t.types, t.sites) && Registrable(t.types)
  {
    var t := TablesOf(policy, boundary, 0);
    EmittedTables(policy, boundary, 0, "");
    EmittedTypesRegistrable(t.types, |Composed(policy.types, boundary.types)|);
  }

  /**
   * A native policy is initialised exactly when its type numbers survive truncation and its
   * labels resolve to proper, pairwise disjoint intervals.
   */
  lemma NativePolicyRegisters(
      ids: seq<TypeEntry>, sites: seq<SiteRecord>, resolve: Resolver, arenaBase: Word, capacity: Word)
    requires NativeTables(ids, sites)
    ensures var s, recorded := Initial(arenaBase, capacity), RecordedSites(ids, sites, resolve);
            && ((AllOk(s, TypeOps(ids)) && AllOk(Run(s, TypeOps(ids)), SiteOps(recorded)))
                <==> (Registrable(ids) && Resolved(recorded)))
            && (Registrable(ids) && Resolved(recorded) ==>
                  SitesAdded(Run(s, TypeOps(ids)), Initialized(s, ids, recorded), recorded))
  {
    var s, recorded := Initial(arenaBase, capacity), RecordedSites(ids, sites, resolve);
    TypesAccepted(s, ids);
    if Registrable(ids) {
      RecordedTyped(Run(s, TypeOps(ids)).types, ids, sites, resolve);
      SitesAccepted(Run(s, TypeOps(ids)), recorded);
    }
  }

  lemma RecordedTyped(t: TypeTable, ids: seq<TypeEntry>, sites: seq<SiteRecord>, resolve: Resolver)
    requires TypesBound(t, ids) && NativeTables(ids, sites)
    ensures SitesTyped(t, RecordedSites(ids, sites, resolve))
  {
    var recorded := RecordedSites(ids, sites, resolve);
    forall k | 0 <= k < |recorded|
      ensures SiteTyped(t, recorded[k]) && recorded[k].id == k + 1
    {
      OneRecorded(t, ids, sites[k], resolve);
    }
  }

  lemma OneRecorded(t: TypeTable, ids: seq<TypeEntry>, r: SiteRecord, resolve: Resolver)
    requires TypesBound(t, ids) && NamesType(ids, r.typeName) && 0 <= r.siteId <= UINT32_MAX
    ensures SiteTyped(t, Recorded(ids, r, resolve)) && Recorded(ids, r, resolve).id == r.siteId
  {
    ConstantBound(t, ids, r.typeName);
  }

  /** In every later state, a program counter is answered for the site whose interval holds it. */
  lemma CountersDecide(
      ids: seq<TypeEntry>, sites: seq<SiteRecord>, resolve: Resolver, arenaBase: Word, capacity: Word,
      ops: seq<Op>, pc: Word)
    requires NativeTables(ids, sites)
    requires Registrable(ids) && Resolved(RecordedSites(ids, sites, resolve)) && Clients(ops)
    ensures var recorded := RecordedSites(ids, sites, resolve);
            var s := Run(Initialized(Initial(arenaBase, capacity), ids, recorded), ops);
            && Reachable(s)
            && (forall k :: 0 <= k < |recorded| && recorded[k].Contains(pc) ==> s.sites.At(pc) == Some(recorded[k]))
            && (s.sites.At(pc).Some? ==> exists k :: 0 <= k < |recorded| && recorded[k].Contains(pc))
  {
    var recorded := RecordedSites(ids, sites, resolve);
    var start := Initialized(Initial(arenaBase, capacity), ids, recorded);
    var s := Run(start, ops);
    NativePolicyRegisters(ids, sites, resolve, arenaBase, capacity);
    ClientsKeepTables(start, ops);
    InitialReachable(arenaBase, capacity);
    RunReachable(Initial(arenaBase, capacity), TypeOps(ids));
    RunReachable(Run(Initial(arenaBase, capacity), TypeOps(ids)), SiteOps(recorded));
    RunReachable(start, ops);
    ReachableInv(s);
    IntervalsDecide(s, recorded, pc);
  }

  lemma IntervalsDecide(s: State, sites: seq<AllocationSite>, pc: Word)
    requires s.Inv() && IntervalsBound(s.sites.byStart, sites)
    ensures forall k :: 0 <= k < |sites| && sites[k].Contains(pc) ==> s.sites.At(pc) == Some(sites[k])
    ensures s.sites.At(pc).Some? ==> exists k :: 0 <= k < |sites| && sites[k].Contains(pc)
  {
    forall k | 0 <= k < |sites| && sites[k].Contains(pc)
      ensures s.sites.At(pc) == Some(sites[k])
    {
      assert s.sites.Holds(sites[k].begin, pc);
      SiteAtIs(s.types, s.sites, sites[k].begin, pc);
    }
    if s.sites.At(pc).Some? {
      var b :| s.sites.Holds(b, pc);
      var k :| 0 <= k < |sites| && sites[k].begin == b;
      assert sites[k].Contains(pc);
    }
  }

  /**
   * An allocation callback from inside the interval of a site, whatever other threads do before
   * and during it, yields no object or one of the type declared for that site, except exactly
   * when a record is made at address 0 and another site then answers.
   */
  lemma CallbackAllocatesDeclaredType(
      ids: seq<TypeEntry>, sites: seq<SiteRecord>, resolve: Resolver, arenaBase: Word, capacity: Word,
      before: seq<Op>, during: seq<Op>, pc: Word, nextPc: Word, size: Word, k: nat)
    requires NativeTables(ids, sites) && k < |sites|
    requires Registrable(ids) && Resolved(RecordedSites(ids, sites, resolve)) && Clients(before)
    requires RecordedSites(ids, sites, resolve)[k].Contains(pc)
    ensures var recorded := RecordedSites(ids, sites, resolve);
            var s := Run(Initialized(Initial(arenaBase, capacity), ids, recorded), before);
            && recorded[k].id == k + 1 && recorded[k].typeHash == HashOf(sites[k].typeName)
            && CallbackKept(s, recorded[k], during, pc, nextPc, size)
  {
    var recorded := RecordedSites(ids, sites, resolve);
    var start := Initialized(Initial(arenaBase, capacity), ids, recorded);
    CountersDecide(ids, sites, resolve, arenaBase, capacity, before, pc);
    var s := Run(start, before);
    assert s.sites.At(pc) == Some(recorded[k]);
    CallbackAt(s, recorded[k], during, pc, nextPc, size);
  }

  /** The callback answers with an object of the site, or not at all, but for one exact case. */
  ghost predicate CallbackKept(
    s: State, site: AllocationSite, during: seq<Op>, pc: Word, nextPc: Word, size: Word)
  {
    var (t, p) := Callback(s, pc, nextPc, size, during);
    p == 0 || GrantedFor(t, p, site, size) <==>
    !(RecordsAtZero(s.arena, size) && OtherSiteAnswers(AfterFirst(s, pc, size, during), pc, nextPc, size, site.id))
  }

  lemma CallbackAt(s: State, site: AllocationSite, during: seq<Op>, pc: Word, nextPc: Word, size: Word)
    requires Reachable(s) && s.sites.At(pc) == Some(site)
    ensures CallbackKept(s, site, during, pc, nextPc, size)
  {
    AuthorityIsKept(s, pc, nextPc, size, during);
    if !RecordsAtZero(s.arena, size) {
      UsualCallback(s, pc, nextPc, size, during);
    } else {
      AttemptInserts(s, pc, size);
      FirstUsesRoom(s, pc, size, during);
      SecondGrant(AfterFirst(s, pc, size, during), nextPc, size);
      SameSite(s, pc, nextPc, size, during);
    }
  }

  /** Two program counters whose sites bear one id have sites of one type. */
  lemma SameSite(s: State, pc: Word, nextPc: Word, size: Word, during: seq<Op>)
    requires Reachable(s) && s.sites.At(pc).Some?
    ensures var u := AfterFirst(s, pc, size, during);
            u.sites.At(nextPc).Some? && u.sites.At(nextPc).value.id == s.sites.At(pc).value.id ==>
              u.sites.At(nextPc).value.typeHash == s.sites.At(pc).value.typeHash
  {
    var u := s.AllocateFromPc(size, pc).0;
    StepReachable(s, OpAllocateFromPc(size, pc));
    assert u == Step(s, OpAllocateFromPc(size, pc)).0;
    SiteForever(u, during, pc);
    RunReachable(u, during);
    var v := Run(u, during);
    FoundSiteHasType(v, pc);
    if v.sites.At(nextPc).Some? {
      FoundSiteHasType(v, nextPc);
    }
  }

  // ----- accepted native policies

  /**
   * The header of an accepted policy initialises a fresh runtime exactly when its labels resolve
   * to proper, pairwise disjoint intervals.
   */
  lemma AcceptedPolicyInitialises(
      policy: Policy, boundary: Boundary, resolve: Resolver, arenaBase: Word, capacity: Word)
    requires NativeUsable(policy, boundary)
    ensures var t := TablesOf(policy, boundary, 0);
            && SitesNamed(t.types, t.sites)
            && var s, recorded := Initial(arenaBase, capacity), RecordedSites(t.types, t.sites, resolve);
            (AllOk(s, TypeOps(t.types)) && AllOk(Run(s, TypeOps(t.types)), SiteOps(recorded)))
            <==> Resolved(recorded)
  {
    var t := TablesOf(policy, boundary, 0);
    NativeTablesEmitted(policy, boundary);
    NativePolicyRegisters(t.types, t.sites, resolve, arenaBase, capacity);
  }

  /**
   * A callback from inside the interval labelled for precise allocation `i` of an accepted policy
   * yields nothing or an object of the type declared for that allocation, but for the exact case
   * of a record at address 0.
   */
  lemma AllocationCallback(
      policy: Policy, boundary: Boundary, resolve: Resolver, arenaBase: Word, capacity: Word,
      before: seq<Op>, during: seq<Op>, pc: Word, nextPc: Word, size: Word, i: nat)
    requires NativeUsable(policy, boundary) && Clients(before)
    requires i < |policy.allocations| && policy.allocations[i].precise
    requires var id := LocalId(policy.allocations, i); resolve(BeginOf(id)) <= pc < resolve(EndOf(id))
    requires var t := TablesOf(policy, boundary, 0);
             SitesNamed(t.types, t.sites) && Resolved(RecordedSites(t.types, t.sites, resolve))
    ensures var t := TablesOf(policy, boundary, 0);
            var recorded := RecordedSites(t.types, t.sites, resolve);
            var s := Run(Initialized(Initial(arenaBase, capacity), t.types, recorded), before);
            var k := LocalId(policy.allocations, i) - 1;
            && k < |recorded| && recorded[k].id == LocalId(policy.allocations, i)
            && recorded[k].typeHash == HashOf(policy.allocations[i].typeName)
            && CallbackKept(s, recorded[k], during, pc, nextPc, size)
  {
    var t := TablesOf(policy, boundary, 0);
    var k := LocalId(policy.allocations, i) - 1;
    NativeTablesEmitted(policy, boundary);
    SiteOfAllocation(policy.allocations, HelperTypes(boundary.helpers), 0, i);
    assert t.sites[k].localId == k + 1 && t.sites[k].typeName == policy.allocations[i].typeName;
    CallbackAllocatesDeclaredType(t.types, t.sites, resolve, arenaBase, capacity, before, during, pc, nextPc, size, k);
  }
}
