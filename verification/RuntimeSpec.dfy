/**
 * What the trusted allocation runtime is meant to do, as a state machine whose lookups and
 * registration tests are stated over all records.
 */
module RuntimeSpec {
  import opened Machine
  import opened Arena

  datatype AllocationSite = AllocationSite(
    id: Word32, begin: Word, end: Word, typeId: Word32, typeHash: Word)
  {
    predicate Contains(pc: nat) { begin <= pc < end }

    predicate Disjoint(lo: nat, hi: nat) { end <= lo || hi <= begin }
  }

  /** The registered types, indexed both ways. */
  datatype TypeTable = TypeTable(hashes: map<Word32, Word>, ids: map<Word, Word32>) {
    function Register(id: Word32, hash: Word): (TypeTable, bool) {
      if id == 0 || id in hashes || hash in ids then (this, false)
      else (TypeTable(hashes[id := hash], ids[hash := id]), true)
    }

    /** The two directions are inverse to each other. */
    ghost predicate Inv() {
      && (forall id :: id in hashes ==> id != 0 && hashes[id] in ids && ids[hashes[id]] == id)
      && (forall h :: h in ids ==> ids[h] in hashes && hashes[ids[h]] == h)
    }

    ghost predicate Extends(prior: TypeTable) {
      && (forall id :: id in prior.hashes ==> id in hashes && hashes[id] == prior.hashes[id])
      && (forall h :: h in prior.ids ==> h in ids && ids[h] == prior.ids[h])
    }
  }

  /** The allocation sites: intervals by start address, their starts by id, and type by id. */
  datatype SiteTable = SiteTable(
    byStart: map<Word, AllocationSite>,
    byId: map<Word32, Word>,
    types: map<Word32, Word>)
  {
    /** No registered interval meets `[begin, end)`: a test over all sites. */
    predicate Free(begin: Word, end: Word) {
      forall b :: b in byStart ==> byStart[b].Disjoint(begin, end)
    }

    predicate CanRegister(t: TypeTable, id: Word32, begin: Word, end: Word, typeId: Word32) {
      && id != 0 && id !in types
      && 0 < begin < end
      && typeId in t.hashes
      && Free(begin, end)
    }

    function Register(t: TypeTable, id: Word32, begin: Word, end: Word, typeId: Word32): (SiteTable, bool) {
      if !CanRegister(t, id, begin, end, typeId) then (this, false)
      else
        var site := AllocationSite(id, begin, end, typeId, t.hashes[typeId]);
        (SiteTable(byStart[begin := site], byId[id := begin], types[id := t.hashes[typeId]]), true)
    }

    function RegisterId(t: TypeTable, id: Word32, typeId: Word32): (SiteTable, bool) {
      if id == 0 || typeId !in t.hashes || id in types then (this, false)
      else (this.(types := types[id := t.hashes[typeId]]), true)
    }

    ghost predicate Holds(b: Word, pc: nat) {
      b in byStart && byStart[b].Contains(pc)
    }

    /** Some registered site whose interval contains `pc`. */
    ghost function At(pc: nat): (r: Option<AllocationSite>)
      ensures r.Some? <==> exists b :: Holds(b, pc)
      ensures r.Some? ==> exists b :: Holds(b, pc) && byStart[b] == r.value
    {
      if b :| Holds(b, pc) then Some(byStart[b]) else None
    }

    /** The entry at `b` agrees with the other site tables and with the type table. */
    ghost predicate EntryOk(t: TypeTable, b: Word)
      requires b in byStart
    {
      var site := byStart[b];
      && site.begin == b && 0 < b < site.end
      && site.id in byId && byId[site.id] == b
      && site.id in types && types[site.id] == site.typeHash
      && site.typeId in t.hashes && t.hashes[site.typeId] == site.typeHash
    }

    /** The three site tables agree, and site intervals are pairwise disjoint. */
    ghost predicate Inv(t: TypeTable) {
      && (forall b :: b in byStart ==> EntryOk(t, b))
      && (forall id :: id in byId ==> byId[id] in byStart && byStart[byId[id]].id == id)
      && (forall id :: id in types ==> id != 0 && types[id] in t.ids)
      && PairwiseDisjoint()
    }

    ghost predicate PairwiseDisjoint() {
      forall a, b :: a in byStart && b in byStart && a != b ==>
        byStart[a].Disjoint(byStart[b].begin, byStart[b].end)
    }

    ghost predicate Extends(prior: SiteTable) {
      && (forall b :: b in prior.byStart ==> b in byStart && byStart[b] == prior.byStart[b])
      && (forall id :: id in prior.byId ==> id in byId && byId[id] == prior.byId[id])
      && (forall id :: id in prior.types ==> id in types && types[id] == prior.types[id])
    }
  }

  datatype CheckResult = Ok | Untracked | WrongType | OutOfBounds

  datatype State = State(arena: Arena, types: TypeTable, sites: SiteTable) {

    // ----- allocation

    function Allocate(size: Word, typeId: Word32): (State, Word) {
      if typeId !in types.hashes then (this, 0)
      else WithArena(arena.Issue(size, types.hashes[typeId], 0))
    }

    function AllocateFromSite(size: Word, site: Word32): (State, Word) {
      if site !in sites.types then (this, 0)
      else WithArena(arena.Issue(size, sites.types[site], site))
    }

    ghost function AllocateFromPc(size: Word, pc: Word): (State, Word) {
      match sites.At(pc)
      case None => (this, 0)
      case Some(site) => WithArena(arena.Issue(size, site.typeHash, site.id))
    }

    function WithArena(r: (Arena, Word)): (State, Word) {
      (this.(arena := r.0), r.1)
    }

    // ----- checks

    /** The whole mathematical range `[p, p + bytes)` lies in one live object of the type. */
    ghost function Check(p: nat, bytes: nat, hash: Word): CheckResult {
      match arena.LiveAt(p)
      case None => Untracked
      case Some(a) =>
        if a.typeHash != hash then WrongType
        else if p + bytes <= a.base + a.size then Ok
        else OutOfBounds
    }

    /** The verdict of `remaining_bytes` and, when it is `Ok`, the bytes left from `p` on. */
    ghost function Remaining(p: nat, hash: Word): (CheckResult, Option<nat>) {
      match arena.LiveAt(p)
      case None => (Untracked, None)
      case Some(a) =>
        if a.typeHash != hash then (WrongType, None)
        else (Ok, Some(a.base + a.size - p))
    }

    // ----- the invariant of reachable states

    /** Each issued block carries a registered type, and the type of its site if it has one. */
    ghost predicate ProvenanceOk(a: Allocation) {
      && a.typeHash in types.ids
      && (a.siteId != 0 ==> a.siteId in sites.types && sites.types[a.siteId] == a.typeHash)
    }

    ghost predicate Inv() {
      && arena.Inv() && types.Inv() && sites.Inv(types)
      && (forall i :: 0 <= i < |arena.issued| ==> ProvenanceOk(arena.issued[i]))
    }
  }

  function Initial(base: Word, capacity: Word): State {
    State(Arena(base, capacity, 0, map[], []), TypeTable(map[], map[]), SiteTable(map[], map[], map[]))
  }

  // ----- runs

  datatype Op =
    | OpRegisterType(id: Word32, hash: Word)
    | OpRegisterSiteId(id: Word32, typeId: Word32)
    | OpRegisterSite(id: Word32, begin: Word, end: Word, typeId: Word32)
    | OpAllocate(size: Word, typeId: Word32)
    | OpAllocateFromSite(size: Word, site: Word32)
    | OpAllocateFromPc(size: Word, pc: Word)
    | OpRelease(p: Word)
    | OpReallocate(p: Word, size: Word)

  /** What one public call hands back to its caller. */
  datatype Reply = Flag(ok: bool) | Address(p: Word)

  function Addressed(r: (State, Word)): (State, Reply) { (r.0, Address(r.1)) }

  ghost function Step(s: State, op: Op): (State, Reply) {
    match op
    case OpRegisterType(id, hash) =>
      var (t, ok) := s.types.Register(id, hash);
      (s.(types := t), Flag(ok))
    case OpRegisterSiteId(id, typeId) =>
      var (t, ok) := s.sites.RegisterId(s.types, id, typeId);
      (s.(sites := t), Flag(ok))
    case OpRegisterSite(id, begin, end, typeId) =>
      var (t, ok) := s.sites.Register(s.types, id, begin, end, typeId);
      (s.(sites := t), Flag(ok))
    case OpAllocate(size, typeId) => Addressed(s.Allocate(size, typeId))
    case OpAllocateFromSite(size, site) => Addressed(s.AllocateFromSite(size, site))
    case OpAllocateFromPc(size, pc) => Addressed(s.AllocateFromPc(size, pc))
    case OpRelease(p) => (s.(arena := s.arena.Remove(p)), Flag(p in s.arena.live))
    case OpReallocate(p, size) => Addressed(s.WithArena(s.arena.Reallocate(p, size)))
  }

  /** Every public call is one atomic step, so an interleaving of threads is a sequence of them. */
  ghost function Run(s: State, ops: seq<Op>): State
    decreases |ops|
  {
    if ops == [] then s else Run(Step(s, ops[0]).0, ops[1..])
  }

  ghost predicate Reachable(s: State) {
    exists base: Word, capacity: Word, ops :: s == Run(Initial(base, capacity), ops)
  }

  // ----- every operation keeps the invariant

  lemma SiteAtIs(t: TypeTable, s: SiteTable, b: Word, pc: nat)
    requires s.Inv(t) && s.Holds(b, pc)
    ensures s.At(pc) == Some(s.byStart[b])
  {
  }

  lemma RegisterTypeKeepsInv(t: TypeTable, id: Word32, hash: Word)
    requires t.Inv()
    ensures t.Register(id, hash).0.Inv() && t.Register(id, hash).0.Extends(t)
  {
  }

  lemma MoreTypesKeepSites(t: TypeTable, t': TypeTable, s: SiteTable)
    requires s.Inv(t) && t'.Extends(t)
    ensures s.Inv(t')
  {
    forall b | b in s.byStart
      ensures s.EntryOk(t', b)
    {
      assert s.EntryOk(t, b);
    }
  }

  lemma RegisteredSiteIsFresh(t: TypeTable, s: SiteTable, id: Word32, begin: Word, end: Word, typeId: Word32)
    requires s.Inv(t) && s.CanRegister(t, id, begin, end, typeId)
    ensures begin !in s.byStart && id !in s.byId
  {
    assert begin in s.byStart ==> s.EntryOk(t, begin);
    assert id in s.byId ==> s.EntryOk(t, s.byId[id]);
  }

  lemma RegisteredEntriesOk(t: TypeTable, s: SiteTable, id: Word32, begin: Word, end: Word, typeId: Word32)
    requires s.Inv(t) && s.CanRegister(t, id, begin, end, typeId)
    ensures forall b :: b in s.Register(t, id, begin, end, typeId).0.byStart ==>
                          s.Register(t, id, begin, end, typeId).0.EntryOk(t, b)
  {
    RegisteredSiteIsFresh(t, s, id, begin, end, typeId);
    var s' := s.Register(t, id, begin, end, typeId).0;
    forall b | b in s'.byStart
      ensures s'.EntryOk(t, b)
    {
      assert b in s.byStart ==> s.EntryOk(t, b);
    }
  }

  lemma RegisteredStaysDisjoint(s: SiteTable, site: AllocationSite)
    requires s.PairwiseDisjoint() && site.begin !in s.byStart && s.Free(site.begin, site.end)
    ensures s.(byStart := s.byStart[site.begin := site]).PairwiseDisjoint()
  {
  }

  lemma RegisterSiteKeepsInv(t: TypeTable, s: SiteTable, id: Word32, begin: Word, end: Word, typeId: Word32)
    requires t.Inv() && s.Inv(t)
    ensures s.Register(t, id, begin, end, typeId).0.Inv(t)
    ensures s.Register(t, id, begin, end, typeId).0.Extends(s)
  {
    if s.CanRegister(t, id, begin, end, typeId) {
      RegisteredSiteIsFresh(t, s, id, begin, end, typeId);
      RegisteredEntriesOk(t, s, id, begin, end, typeId);
      var s' := s.Register(t, id, begin, end, typeId).0;
      RegisteredStaysDisjoint(s, s'.byStart[begin]);
      assert s'.PairwiseDisjoint();
    }
  }

  lemma RegisterSiteIdKeepsInv(t: TypeTable, s: SiteTable, id: Word32, typeId: Word32)
    requires t.Inv() && s.Inv(t)
    ensures s.RegisterId(t, id, typeId).0.Inv(t)
    ensures s.RegisterId(t, id, typeId).0.Extends(s)
  {
    var s' := s.RegisterId(t, id, typeId).0;
    forall b | b in s'.byStart
      ensures s'.EntryOk(t, b)
    {
      assert s.EntryOk(t, b);
    }
  }

  lemma InitialInv(base: Word, capacity: Word)
    ensures Initial(base, capacity).Inv()
  {
  }

  lemma GrantKeepsInv(s: State, size: Word, hash: Word, site: Word32)
    requires s.Inv() && hash in s.types.ids
    requires site != 0 ==> site in s.sites.types && s.sites.types[site] == hash
    ensures s.WithArena(s.arena.Issue(size, hash, site)).0.Inv()
  {
    IssueKeepsInv(s.arena, size, hash, site);
    var s' := s.WithArena(s.arena.Issue(size, hash, site)).0;
    forall i | 0 <= i < |s'.arena.issued|
      ensures s'.ProvenanceOk(s'.arena.issued[i])
    {
      assert i < |s.arena.issued| ==> s.ProvenanceOk(s.arena.issued[i]);
    }
  }

  lemma MoreTablesKeepProvenance(s: State, s': State)
    requires s.Inv() && s'.arena == s.arena
    requires s'.types.Inv() && s'.types.Extends(s.types)
    requires s'.sites.Inv(s'.types) && s'.sites.Extends(s.sites)
    ensures s'.Inv()
  {
    forall i | 0 <= i < |s'.arena.issued|
      ensures s'.ProvenanceOk(s'.arena.issued[i])
    {
      assert s.ProvenanceOk(s.arena.issued[i]);
    }
  }

  lemma RemoveKeepsInv(s: State, p: Word)
    requires s.Inv()
    ensures s.(arena := s.arena.Remove(p)).Inv()
  {
    var s' := s.(arena := s.arena.Remove(p));
    forall i | 0 <= i < |s'.arena.issued|
      ensures s'.ProvenanceOk(s'.arena.issued[i])
    {
      assert s.ProvenanceOk(s.arena.issued[i]);
    }
  }

  lemma ReallocateKeepsInv(s: State, p: Word, size: Word)
    requires s.Inv()
    ensures s.WithArena(s.arena.Reallocate(p, size)).0.Inv()
  {
    RemoveKeepsInv(s, p);
    if p in s.arena.live && size != 0 {
      var was := s.arena.live[p];
      var i :| 0 <= i < |s.arena.issued| && s.arena.issued[i] == was;
      assert s.ProvenanceOk(s.arena.issued[i]);
      GrantKeepsInv(s, size, was.typeHash, was.siteId);
      RemoveKeepsInv(s.WithArena(s.arena.Issue(size, was.typeHash, was.siteId)).0, p);
    }
  }

  lemma StepKeepsInv(s: State, op: Op)
    requires s.Inv()
    ensures Step(s, op).0.Inv()
  {
    match op
    case OpRegisterType(id, hash) =>
      RegisterTypeKeepsInv(s.types, id, hash);
      MoreTypesKeepSites(s.types, Step(s, op).0.types, s.sites);
      MoreTablesKeepProvenance(s, Step(s, op).0);
    case OpRegisterSiteId(id, typeId) =>
      RegisterSiteIdKeepsInv(s.types, s.sites, id, typeId);
      MoreTablesKeepProvenance(s, Step(s, op).0);
    case OpRegisterSite(id, begin, end, typeId) =>
      RegisterSiteKeepsInv(s.types, s.sites, id, begin, end, typeId);
      MoreTablesKeepProvenance(s, Step(s, op).0);
    case OpAllocate(size, typeId) =>
      if typeId in s.types.hashes {
        GrantKeepsInv(s, size, s.types.hashes[typeId], 0);
      }
    case OpAllocateFromSite(size, site) =>
      if site in s.sites.types {
        GrantKeepsInv(s, size, s.sites.types[site], site);
      }
    case OpAllocateFromPc(size, pc) =>
      if s.sites.At(pc).Some? {
        var b :| s.sites.Holds(b, pc) && s.sites.byStart[b] == s.sites.At(pc).value;
        assert s.sites.EntryOk(s.types, b);
        GrantKeepsInv(s, size, s.sites.byStart[b].typeHash, s.sites.byStart[b].id);
      }
    case OpRelease(p) => RemoveKeepsInv(s, p);
    case OpReallocate(p, size) => ReallocateKeepsInv(s, p, size);
  }

  lemma {:induction false} RunKeepsInv(s: State, ops: seq<Op>)
    requires s.Inv()
    ensures Run(s, ops).Inv()
    decreases |ops|
  {
    if ops != [] {
      StepKeepsInv(s, ops[0]);
      RunKeepsInv(Step(s, ops[0]).0, ops[1..]);
    }
  }

  /** Every state any run can reach, from any arena, satisfies the invariant. */
  lemma ReachableInv(s: State)
    requires Reachable(s)
    ensures s.Inv()
  {
    var base: Word, capacity: Word, ops :| s == Run(Initial(base, capacity), ops);
    InitialInv(base, capacity);
    RunKeepsInv(Initial(base, capacity), ops);
  }

  /** Every live record has a registered type, which is its site's type if it names a site. */
  lemma LiveProvenance(s: State, k: Word)
    requires Reachable(s) && k in s.arena.live
    ensures s.ProvenanceOk(s.arena.live[k])
  {
    ReachableInv(s);
    var i :| 0 <= i < |s.arena.issued| && s.arena.issued[i] == s.arena.live[k];
    assert s.ProvenanceOk(s.arena.issued[i]);
  }

  // ----- reachable states

  lemma {:induction false} RunAppend(s: State, a: seq<Op>, b: seq<Op>)
    ensures Run(s, a + b) == Run(Run(s, a), b)
    decreases |a|
  {
    if a == [] {
      assert a + b == b;
    } else {
      assert (a + b)[0] == a[0] && (a + b)[1..] == a[1..] + b;
      RunAppend(Step(s, a[0]).0, a[1..], b);
    }
  }

  lemma RunOne(s: State, op: Op)
    ensures Run(s, [op]) == Step(s, op).0
  {
    assert [op][1..] == [];
    assert Run(Step(s, op).0, []) == Step(s, op).0;
  }

  lemma RunReachable(s: State, ops: seq<Op>)
    requires Reachable(s)
    ensures Reachable(Run(s, ops))
  {
    var base: Word, capacity: Word, before :| s == Run(Initial(base, capacity), before);
    RunAppend(Initial(base, capacity), before, ops);
    assert Run(s, ops) == Run(Initial(base, capacity), before + ops);
  }

  lemma StepReachable(s: State, op: Op)
    requires Reachable(s)
    ensures Reachable(Step(s, op).0)
  {
    RunReachable(s, [op]);
    RunOne(s, op);
  }

  lemma InitialReachable(base: Word, capacity: Word)
    ensures Reachable(Initial(base, capacity))
  {
    assert Run(Initial(base, capacity), []) == Initial(base, capacity);
  }

  /** A grant for a registered type, and for the type of its site if it names one, is a step. */
  lemma GrantReachable(s: State, size: Word, hash: Word, site: Word32)
    requires Reachable(s) && hash in s.types.ids
    requires site != 0 ==> site in s.sites.types && s.sites.types[site] == hash
    ensures Reachable(s.WithArena(s.arena.Issue(size, hash, site)).0)
  {
    ReachableInv(s);
    if site == 0 {
      StepReachable(s, OpAllocate(size, s.types.ids[hash]));
    } else {
      StepReachable(s, OpAllocateFromSite(size, site));
    }
  }
}
