/** From the uses a policy declares to the verdicts of the emitted access checks. */
module PolicyAccess {
  import opened Machine
  import opened Arena
  import opened RuntimeSpec
  import opened RuntimeRuns
  import opened StepMeaning
  import opened TrustedRuntime
  import opened AccessChecks
  import opened TypeHash
  import opened PolicyTables
  import opened PolicyGenerators
  import opened PolicyRegistration
  import opened PolicyRuntimes
  import opened PolicyGuarantees

  /** The length a use declares: none when its length is given at run time. */
  function DeclaredBytes(u: Use): int {
    if u.isDynamic then 0 else u.bytes
  }

  /** The emitted window of a use has the hash of its type, its offset and its declared length. */
  lemma EmittedWindow(policy: Policy, boundary: Boundary, base: int, i: nat)
    requires UsesOk(FixedUses(policy.uses), Composed(policy.types, boundary.types)) && i < |policy.uses|
    ensures var entries := TablesOf(policy, boundary, base).uses;
            && |entries| == |policy.uses|
            && entries[i].typeHash == HashOf(policy.uses[i].typeName)
            && entries[i].offset == policy.uses[i].offset
            && entries[i].bytes == DeclaredBytes(policy.uses[i])
  {
    assert UseOk(FixedUses(policy.uses)[i], Composed(policy.types, boundary.types));
  }

  /** The same for a native policy without a boundary, whose dynamic uses keep the length they declare. */
  lemma NativeWindow(policy: Policy, i: nat)
    requires UsesOk(policy.uses, policy.types) && i < |policy.uses|
    ensures var entries := UseEntries(policy.uses, policy.types);
            && |entries| == |policy.uses|
            && entries[i].typeHash == HashOf(policy.uses[i].typeName)
            && entries[i].offset == policy.uses[i].offset && entries[i].bytes == policy.uses[i].bytes
  {
  }

  /** The numbers of an emitted window fit a `size_t`. */
  predicate FitsHeader(e: UseEntry) {
    e.offset <= SIZE_MAX && e.bytes <= SIZE_MAX
  }

  /** An emitted window as a constant of the header. */
  function Emitted(e: UseEntry): AccessPolicy
    requires FitsHeader(e)
  {
    AccessPolicy(e.typeHash, e.offset, e.bytes)
  }

  /** One live object of the type of the use holds `base` and `bytes` bytes from the use's offset on. */
  ghost predicate Held(s: State, base: Word, u: Use, bytes: nat)
    requires u.offset >= 0
  {
    exists k: Word :: WindowInside(s, k, base, u.offset, bytes, HashOf(u.typeName))
  }

  /**
   * `checked_access` with the window emitted for use `i`: it accepts exactly when one live object
   * holds the window as the policy declares it, and then hands out that window.
   */
  method AccessUse(
      runtime: Runtime, t: Tables, base: Word, i: nat,
      ghost policy: Policy, ghost boundary: Boundary, ghost siteBase: int)
    returns (r: CheckedAccess)
    requires runtime.Valid()
    requires UsesOk(FixedUses(policy.uses), Composed(policy.types, boundary.types))
    requires t == TablesOf(policy, boundary, siteBase) && i < |policy.uses| && FitsHeader(t.uses[i])
    ensures policy.uses[i].offset >= 0 && DeclaredBytes(policy.uses[i]) >= 0
    ensures r.result == Ok <==> Held(runtime.model, base, policy.uses[i], DeclaredBytes(policy.uses[i]))
    ensures r.result == Ok ==>
              r.address == base + policy.uses[i].offset && r.bytes == DeclaredBytes(policy.uses[i])
    ensures r.result != Ok ==> r.address == 0 && r.bytes == 0
  {
    EmittedWindow(policy, boundary, siteBase, i);
    WindowAccepted(runtime.model, base, t.uses[i].offset, t.uses[i].bytes, t.uses[i].typeHash);
    r := CheckAccess(runtime, base, Emitted(t.uses[i]));
  }

  /** `checked_dynamic_access` likewise: only dynamic uses and those without a length are accepted. */
  method AccessDynamicUse(
      runtime: Runtime, t: Tables, base: Word, dynamicBytes: Word, i: nat,
      ghost policy: Policy, ghost boundary: Boundary, ghost siteBase: int)
    returns (r: CheckedAccess)
    requires runtime.Valid()
    requires UsesOk(FixedUses(policy.uses), Composed(policy.types, boundary.types))
    requires t == TablesOf(policy, boundary, siteBase) && i < |policy.uses| && FitsHeader(t.uses[i])
    ensures policy.uses[i].offset >= 0
    ensures r.result == Ok <==>
            DeclaredBytes(policy.uses[i]) == 0 && Held(runtime.model, base, policy.uses[i], dynamicBytes)
    ensures r.result == Ok ==> r.address == base + policy.uses[i].offset && r.bytes == dynamicBytes
    ensures r.result != Ok ==> r.address == 0 && r.bytes == 0
  {
    EmittedWindow(policy, boundary, siteBase, i);
    WindowAccepted(runtime.model, base, t.uses[i].offset, dynamicBytes, t.uses[i].typeHash);
    r := CheckDynamicAccess(runtime, base, dynamicBytes, Emitted(t.uses[i]));
  }

  /** `check` of a wasm header: the length counted is the declared one, or the run-time one if it is 0. */
  method CheckUse(
      runtime: Runtime, t: Tables, base: Word, dynamicBytes: Word, i: nat,
      ghost policy: Policy, ghost boundary: Boundary, ghost siteBase: int)
    returns (r: CheckResult)
    requires runtime.Valid()
    requires UsesOk(FixedUses(policy.uses), Composed(policy.types, boundary.types))
    requires t == TablesOf(policy, boundary, siteBase) && i < |policy.uses| && FitsHeader(t.uses[i])
    ensures policy.uses[i].offset >= 0 && DeclaredBytes(policy.uses[i]) >= 0
    ensures r == Ok <==>
            Held(runtime.model, base, policy.uses[i],
                 if DeclaredBytes(policy.uses[i]) == 0 then dynamicBytes else DeclaredBytes(policy.uses[i]))
  {
    EmittedWindow(policy, boundary, siteBase, i);
    var bytes := if t.uses[i].bytes == 0 then dynamicBytes else t.uses[i].bytes;
    WindowAccepted(runtime.model, base, t.uses[i].offset, bytes, t.uses[i].typeHash);
    r := CheckWasm(runtime, base, dynamicBytes, Emitted(t.uses[i]));
  }

  // ----- why a window is refused

  /** Exactly when each refusal of a window is given, in unbounded arithmetic. */
  lemma WindowRefusals(s: State, base: Word, offset: Word, bytes: Word, hash: Word)
    requires Reachable(s)
    ensures WindowVerdict(s, base, offset, bytes, hash) == Untracked <==>
            offset + bytes <= SIZE_MAX && Unheld(s, base)
    ensures WindowVerdict(s, base, offset, bytes, hash) == WrongType <==>
            offset + bytes <= SIZE_MAX && HeldAsOther(s, base, hash)
    ensures WindowVerdict(s, base, offset, bytes, hash) == OutOfBounds <==>
            || offset + bytes > SIZE_MAX
            || exists k: Word :: s.arena.LiveHolds(k, base) && s.arena.live[k].typeHash == hash
                                 && !WindowInside(s, k, base, offset, bytes, hash)
  {
    if offset + bytes <= SIZE_MAX {
      CheckVerdicts(s, base, offset + bytes, hash);
      forall k: Word | s.arena.LiveHolds(k, base) && s.arena.live[k].typeHash == hash
        ensures WindowInside(s, k, base, offset, bytes, hash) <==>
                !(base + (offset + bytes) > k + s.arena.live[k].size)
      {
      }
    }
  }

  // ----- from an allocation to an access

  /** The verdict on a window of `size` bytes of one type, for a use of another or the same. */
  function Verdict(size: Word, sameType: bool, offset: nat, bytes: nat): CheckResult {
    if offset + bytes > SIZE_MAX then OutOfBounds
    else if !sameType then WrongType
    else if offset + bytes <= size then Ok
    else OutOfBounds
  }

  lemma VerdictAtObject(s: State, p: Word, offset: Word, bytes: Word, hash: Word)
    requires Reachable(s) && p in s.arena.live
    ensures WindowVerdict(s, p, offset, bytes, hash) ==
            Verdict(s.arena.live[p].size, s.arena.live[p].typeHash == hash, offset, bytes)
  {
    ReachableInv(s);
    LiveHasSize(s.arena, p);
    LiveAtIs(s.arena, p, p);
  }

  /** Different types of an accepted policy have different hashes. */
  lemma HashTellsType(types: seq<Name>, a: Name, b: Name)
    requires CollisionFree(types) && a in types && b in types
    ensures HashOf(a) == HashOf(b) <==> a == b
  {
  }

  /**
   * From one end of a wasm policy to the other: the object that a replaced `malloc` obtained is
   * accepted for a use, for as long as it lives, exactly when the use names the type declared for
   * the allocation and its window lies in the size asked for; otherwise the refusal says why.
   */
  lemma AllocatedObjectIsChecked(
      policy: Policy, boundary: Boundary, base: int, importStem: string, arenaBase: Word, capacity: Word,
      before: seq<Op>, size: Word, i: nat, after: seq<Op>, j: nat, bytes: Word)
    requires WasmAccepts(policy, boundary, base, importStem) && i < |policy.allocations| && j < |policy.uses|
    requires |Composed(policy.types, boundary.types)| <= UINT32_MAX && Clients(before)
    requires policy.uses[j].offset <= SIZE_MAX
    ensures var t := TablesOf(policy, boundary, base);
            && SitesNamed(t.types, t.sites) && policy.uses[j].offset >= 0
            && var s := Run(WasmRegistered(t, arenaBase, capacity), before);
            var (g, p) := s.AllocateFromSite(size, Bits32(base + i + 1));
            var u := Run(g, after);
            p != 0 && p in u.arena.live ==>
              WindowVerdict(u, p, policy.uses[j].offset, bytes, HashOf(policy.uses[j].typeName)) ==
              Verdict(size, policy.allocations[i].typeName == policy.uses[j].typeName, policy.uses[j].offset, bytes)
  {
    var t := TablesOf(policy, boundary, base);
    EmittedWindow(policy, boundary, base, j);
    ReplacedCallAllocates(policy, boundary, base, importStem, arenaBase, capacity, before, size, i);
    var s := Run(WasmRegistered(t, arenaBase, capacity), before);
    RegisteredReachable(t, arenaBase, capacity, before);
    var types := Composed(policy.types, boundary.types);
    assert UseOk(FixedUses(policy.uses)[j], types);
    HashTellsType(types, policy.allocations[i].typeName, policy.uses[j].typeName);
    var id := Bits32(base + i + 1);
    StepReachable(s, OpAllocateFromSite(size, id));
    var (g, p) := s.AllocateFromSite(size, id);
    assert g == Step(s, OpAllocateFromSite(size, id)).0;
    if p != 0 && p in Run(g, after).arena.live {
      ObjectIsChecked(g, p, size, HashOf(policy.allocations[i].typeName), id, after,
                      policy.uses[j].offset, bytes, HashOf(policy.uses[j].typeName));
    }
  }

  /** An object is checked alike for as long as it lives. */
  lemma ObjectIsChecked(
      g: State, p: Word, size: Word, own: Word, site: Word32, after: seq<Op>, offset: Word, bytes: Word, hash: Word)
    requires Reachable(g) && p in g.arena.live && g.arena.live[p] == Allocation(p, size, own, site)
    requires p in Run(g, after).arena.live
    ensures WindowVerdict(Run(g, after), p, offset, bytes, hash) == Verdict(size, own == hash, offset, bytes)
  {
    SurvivorIsKept(g, after, p);
    RunReachable(g, after);
    VerdictAtObject(Run(g, after), p, offset, bytes, hash);
  }

  lemma RegisteredReachable(t: Tables, arenaBase: Word, capacity: Word, ops: seq<Op>)
    requires SitesNamed(t.types, t.sites)
    ensures Reachable(Run(WasmRegistered(t, arenaBase, capacity), ops))
  {
    var s := Initial(arenaBase, capacity);
    InitialReachable(arenaBase, capacity);
    RunReachable(s, TypeOps(t.types));
    RunReachable(Run(s, TypeOps(t.types)), SiteIdOps(t.types, t.sites));
    RunReachable(WasmRegistered(t, arenaBase, capacity), ops);
  }

  /** The state in which a callback of an initialised native header starts. */
  ghost function NativeState(
    t: Tables, resolve: Resolver, arenaBase: Word, capacity: Word, before: seq<Op>): State
    requires SitesNamed(t.types, t.sites)
  {
    Run(Initialized(Initial(arenaBase, capacity), t.types, RecordedSites(t.types, t.sites, resolve)), before)
  }

  lemma NativeReachable(t: Tables, resolve: Resolver, arenaBase: Word, capacity: Word, before: seq<Op>)
    requires SitesNamed(t.types, t.sites)
    ensures Reachable(NativeState(t, resolve, arenaBase, capacity, before))
  {
    var s, recorded := Initial(arenaBase, capacity), RecordedSites(t.types, t.sites, resolve);
    InitialReachable(arenaBase, capacity);
    RunReachable(s, TypeOps(t.types));
    RunReachable(Run(s, TypeOps(t.types)), SiteOps(recorded));
    RunReachable(Initialized(s, t.types, recorded), before);
  }

  lemma CallbackReachable(s: State, pc: Word, nextPc: Word, size: Word, during: seq<Op>)
    requires Reachable(s)
    ensures Reachable(Callback(s, pc, nextPc, size, during).0)
  {
    var first := s.AllocateFromPc(size, pc).0;
    StepReachable(s, OpAllocateFromPc(size, pc));
    assert first == Step(s, OpAllocateFromPc(size, pc)).0;
    RunReachable(first, during);
    StepReachable(Run(first, during), OpAllocateFromPc(size, nextPc));
  }

  /**
   * The same for a native policy: the object that a callback from inside the interval of precise
   * allocation `i` obtained is accepted, for as long as it lives, exactly for uses of the declared
   * type within the size asked for, but for the exact case of a record at address 0.
   */
  lemma CallbackObjectIsChecked(
      policy: Policy, boundary: Boundary, resolve: Resolver, arenaBase: Word, capacity: Word,
      before: seq<Op>, during: seq<Op>, pc: Word, nextPc: Word, size: Word, i: nat,
      after: seq<Op>, j: nat, bytes: Word)
    requires NativeUsable(policy, boundary) && Clients(before)
    requires i < |policy.allocations| && policy.allocations[i].precise
    requires var id := LocalId(policy.allocations, i); resolve(BeginOf(id)) <= pc < resolve(EndOf(id))
    requires var t := TablesOf(policy, boundary, 0);
             SitesNamed(t.types, t.sites) && Resolved(RecordedSites(t.types, t.sites, resolve))
    requires j < |policy.uses| && policy.uses[j].offset <= SIZE_MAX
    ensures var t := TablesOf(policy, boundary, 0);
            var s := NativeState(t, resolve, arenaBase, capacity, before);
            var (g, p) := Callback(s, pc, nextPc, size, during);
            var u, id := Run(g, after), Bits32(LocalId(policy.allocations, i));
            && policy.uses[j].offset >= 0
            && (p != 0 && p in u.arena.live
                && !(RecordsAtZero(s.arena, size)
                     && OtherSiteAnswers(AfterFirst(s, pc, size, during), pc, nextPc, size, id)) ==>
                  WindowVerdict(u, p, policy.uses[j].offset, bytes, HashOf(policy.uses[j].typeName)) ==
                  Verdict(size, policy.allocations[i].typeName == policy.uses[j].typeName, policy.uses[j].offset, bytes))
  {
    var t := TablesOf(policy, boundary, 0);
    var s := NativeState(t, resolve, arenaBase, capacity, before);
    var k := LocalId(policy.allocations, i) - 1;
    AllocationCallback(policy, boundary, resolve, arenaBase, capacity, before, during, pc, nextPc, size, i);
    EmittedWindow(policy, boundary, 0, j);
    assert UseOk(FixedUses(policy.uses)[j], Composed(policy.types, boundary.types));
    HashTellsType(Composed(policy.types, boundary.types), policy.allocations[i].typeName, policy.uses[j].typeName);
    NativeReachable(t, resolve, arenaBase, capacity, before);
    CallbackReachable(s, pc, nextPc, size, during);
    var site := RecordedSites(t.types, t.sites, resolve)[k];
    var (g, p) := Callback(s, pc, nextPc, size, during);
    if p in Run(g, after).arena.live && GrantedFor(g, p, site, size) {
      ObjectIsChecked(g, p, size, site.typeHash, site.id, after,
                      policy.uses[j].offset, bytes, HashOf(policy.uses[j].typeName));
    }
  }
}
