/** Registering the tables of a generated header on the trusted runtime. */
module PolicyRegistration {
  import opened Machine
  import opened RuntimeSpec
  import opened TrustedRuntime
  import opened TypeHash
  import opened PolicyTables
  import opened PolicyGenerators

  /** Conversion to `uint32_t`. */
  function Bits32(n: int): Word32 { n % 0x1_0000_0000 }

  /** The number behind the type constant of `name`. */
  function IdOf(ids: seq<TypeEntry>, name: Name): nat
    requires NamesType(ids, name)
  {
    if ids[0].name == name then ids[0].id else IdOf(ids[1..], name)
  }

  /** The two ends of a native site, which the generated code labels. */
  datatype Label = BeginOf(site: nat) | EndOf(site: nat)

  /** Where the backend finds a label; 0 when it does not. */
  type Resolver = Label -> Word

  function TypeOp(e: TypeEntry): Op { OpRegisterType(Bits32(e.id), HashOf(e.name)) }

  function TypeOps(ids: seq<TypeEntry>): seq<Op> {
    seq(|ids|, k requires 0 <= k < |ids| => TypeOp(ids[k]))
  }

  predicate SitesNamed(ids: seq<TypeEntry>, sites: seq<SiteRecord>) {
    forall k :: 0 <= k < |sites| ==> NamesType(ids, sites[k].typeName)
  }

  function SiteIdOp(ids: seq<TypeEntry>, r: SiteRecord): Op
    requires NamesType(ids, r.typeName)
  {
    OpRegisterSiteId(Bits32(r.siteId), Bits32(IdOf(ids, r.typeName)))
  }

  function SiteIdOps(ids: seq<TypeEntry>, sites: seq<SiteRecord>): seq<Op>
    requires SitesNamed(ids, sites)
  {
    seq(|sites|, k requires 0 <= k < |sites| => SiteIdOp(ids, sites[k]))
  }

  /** A native site as the runtime is to record it. */
  function Recorded(ids: seq<TypeEntry>, r: SiteRecord, resolve: Resolver): AllocationSite
    requires NamesType(ids, r.typeName)
  {
    AllocationSite(Bits32(r.siteId), resolve(BeginOf(r.localId)), resolve(EndOf(r.localId)),
                   Bits32(IdOf(ids, r.typeName)), HashOf(r.typeName))
  }

  function RecordedSites(ids: seq<TypeEntry>, sites: seq<SiteRecord>, resolve: Resolver): seq<AllocationSite>
    requires SitesNamed(ids, sites)
  {
    seq(|sites|, k requires 0 <= k < |sites| => Recorded(ids, sites[k], resolve))
  }

  function SiteOp(site: AllocationSite): Op {
    OpRegisterSite(site.id, site.begin, site.end, site.typeId)
  }

  function SiteOps(sites: seq<AllocationSite>): seq<Op> {
    seq(|sites|, k requires 0 <= k < |sites| => SiteOp(sites[k]))
  }

  /** Every call of the sequence answers `true`. */
  ghost predicate AllOk(s: State, ops: seq<Op>) {
    ops == []
    || (AllOk(s, ops[..|ops| - 1]) && Step(Run(s, ops[..|ops| - 1]), ops[|ops| - 1]).1 == Flag(true))
  }

  lemma AllOkStep(s: State, ops: seq<Op>, op: Op)
    ensures AllOk(s, ops + [op]) <==> AllOk(s, ops) && Step(Run(s, ops), op).1 == Flag(true)
    ensures Run(s, ops + [op]) == Step(Run(s, ops), op).0
  {
    assert (ops + [op])[..|ops|] == ops;
    RunAppend(s, ops, [op]);
    RunOne(Run(s, ops), op);
  }

  lemma AllOkAt(s: State, ops: seq<Op>, i: nat)
    requires i < |ops|
    ensures AllOk(s, ops[..i + 1]) <==> AllOk(s, ops[..i]) && Step(Run(s, ops[..i]), ops[i]).1 == Flag(true)
    ensures Run(s, ops[..i + 1]) == Step(Run(s, ops[..i]), ops[i]).0
  {
    assert ops[..i + 1] == ops[..i] + [ops[i]];
    AllOkStep(s, ops[..i], ops[i]);
  }

  /** A sequence that stops at the first refusal: `after` is the state where it stopped. */
  ghost predicate Stopped(s: State, ops: seq<Op>, after: State, ok: bool) {
    if ok then AllOk(s, ops) && after == Run(s, ops)
    else exists k :: 0 <= k < |ops| && RefusedAt(s, ops, k) && after == Run(s, ops[..k])
  }

  ghost predicate RefusedAt(s: State, ops: seq<Op>, k: nat)
    requires k < |ops|
  {
    AllOk(s, ops[..k]) && Step(Run(s, ops[..k]), ops[k]) == (Run(s, ops[..k]), Flag(false))
  }

  lemma {:induction false} RefusedMeansNotOk(s: State, ops: seq<Op>, k: nat)
    requires k < |ops| && RefusedAt(s, ops, k)
    ensures !AllOk(s, ops)
    decreases |ops|
  {
    var n := |ops| - 1;
    if k < n {
      assert ops[..n][..k] == ops[..k];
      RefusedMeansNotOk(s, ops[..n], k);
    }
  }

  /** A refused registration changes nothing. */
  lemma RefusalKeepsState(s: State, op: Op)
    requires op.OpRegisterType? || op.OpRegisterSiteId? || op.OpRegisterSite?
    ensures Step(s, op).1 == Flag(false) ==> Step(s, op).0 == s
    ensures Step(s, op).1.Flag?
  {
  }

  // ----- the registration functions of the generated headers

  /** Every type is offered, even after a refusal. */
  method RegisterTypes(runtime: Runtime, ids: seq<TypeEntry>) returns (ok: bool)
    requires runtime.Valid()
    modifies runtime
    ensures runtime.Valid()
    ensures runtime.model == Run(old(runtime.model), TypeOps(ids))
    ensures ok <==> AllOk(old(runtime.model), TypeOps(ids))
  {
    ok := true;
    ghost var s := runtime.model;
    for i := 0 to |ids|
      invariant runtime.Valid()
      invariant runtime.model == Run(s, TypeOps(ids[..i]))
      invariant ok <==> AllOk(s, TypeOps(ids[..i]))
    {
      assert TypeOps(ids[..i + 1]) == TypeOps(ids[..i]) + [TypeOp(ids[i])];
      AllOkStep(s, TypeOps(ids[..i]), TypeOp(ids[i]));
      var registered := runtime.RegisterType(Bits32(ids[i].id), HashOf(ids[i].name));
      ok := registered && ok;
    }
    assert ids[..|ids|] == ids;
  }

  /** Site by site, up to the first refusal. */
  method RegisterWasmAllocationPolicy(runtime: Runtime, ids: seq<TypeEntry>, sites: seq<SiteRecord>)
    returns (ok: bool)
    requires runtime.Valid() && SitesNamed(ids, sites)
    modifies runtime
    ensures runtime.Valid()
    ensures ok <==> AllOk(old(runtime.model), SiteIdOps(ids, sites))
    ensures Stopped(old(runtime.model), SiteIdOps(ids, sites), runtime.model, ok)
  {
    ghost var s, ops := runtime.model, SiteIdOps(ids, sites);
    for i := 0 to |sites|
      invariant runtime.Valid()
      invariant runtime.model == Run(s, ops[..i]) && AllOk(s, ops[..i])
    {
      ghost var t := runtime.model;
      AllOkAt(s, ops, i);
      RefusalKeepsState(t, ops[i]);
      var registered := runtime.RegisterAllocationSiteId(Bits32(sites[i].siteId), Bits32(IdOf(ids, sites[i].typeName)));
      if !registered {
        RefusedMeansNotOk(s, ops, i);
        return false;
      }
    }
    assert ops[..|sites|] == ops;
    return true;
  }

  /** Precise sites come first in the table, then helpers, as the header registers them. */
  method RegisterSites(runtime: Runtime, ids: seq<TypeEntry>, sites: seq<SiteRecord>, resolve: Resolver)
    returns (ok: bool)
    requires runtime.Valid() && SitesNamed(ids, sites)
    modifies runtime
    ensures runtime.Valid()
    ensures ok <==> AllOk(old(runtime.model), SiteOps(RecordedSites(ids, sites, resolve)))
    ensures Stopped(old(runtime.model), SiteOps(RecordedSites(ids, sites, resolve)), runtime.model, ok)
  {
    ghost var s, ops := runtime.model, SiteOps(RecordedSites(ids, sites, resolve));
    for i := 0 to |sites|
      invariant runtime.Valid()
      invariant runtime.model == Run(s, ops[..i]) && AllOk(s, ops[..i])
    {
      ghost var t := runtime.model;
      AllOkAt(s, ops, i);
      RefusalKeepsState(t, ops[i]);
      var begin := resolve(BeginOf(sites[i].localId));
      var end := resolve(EndOf(sites[i].localId));
      var registered := false;
      if begin != 0 && end != 0 {
        registered := runtime.RegisterAllocationSite(
          Bits32(sites[i].siteId), begin, end, Bits32(IdOf(ids, sites[i].typeName)));
      }
      if !registered {
        RefusedMeansNotOk(s, ops, i);
        return false;
      }
    }
    assert ops[..|sites|] == ops;
    return true;
  }

  // ----- the type table that results

  predicate Clash(d: TypeEntry, e: TypeEntry) {
    Bits32(d.id) == Bits32(e.id) || HashOf(d.name) == HashOf(e.name)
  }

  predicate FreshType(ids: seq<TypeEntry>, e: TypeEntry) {
    Bits32(e.id) != 0 && forall i :: 0 <= i < |ids| ==> !Clash(ids[i], e)
  }

  /** No number truncates to 0, and no two entries agree in their number or their hash. */
  predicate Registrable(ids: seq<TypeEntry>) {
    forall k :: 0 <= k < |ids| ==> FreshType(ids[..k], ids[k])
  }

  ghost predicate EntryBound(t: TypeTable, e: TypeEntry) {
    Bits32(e.id) in t.hashes && t.hashes[Bits32(e.id)] == HashOf(e.name)
    && HashOf(e.name) in t.ids && t.ids[HashOf(e.name)] == Bits32(e.id)
  }

  /** The type table holds exactly the entries. */
  ghost predicate TypesBound(t: TypeTable, ids: seq<TypeEntry>) {
    && (forall i :: 0 <= i < |ids| ==> EntryBound(t, ids[i]))
    && (forall id :: id in t.hashes ==> exists i :: 0 <= i < |ids| && Bits32(ids[i].id) == id)
    && (forall h :: h in t.ids ==> exists i :: 0 <= i < |ids| && HashOf(ids[i].name) == h)
  }

  lemma TypeVerdict(t: TypeTable, ids: seq<TypeEntry>, e: TypeEntry)
    requires TypesBound(t, ids)
    ensures t.Register(Bits32(e.id), HashOf(e.name)).1 <==> FreshType(ids, e)
  {
    assert forall i :: 0 <= i < |ids| && Clash(ids[i], e) ==> EntryBound(t, ids[i]);
  }

  lemma TypeStep(t: TypeTable, ids: seq<TypeEntry>, e: TypeEntry)
    requires TypesBound(t, ids) && FreshType(ids, e)
    ensures TypesBound(t.Register(Bits32(e.id), HashOf(e.name)).0, ids + [e])
  {
    TypeVerdict(t, ids, e);
    var t' := t.Register(Bits32(e.id), HashOf(e.name)).0;
    var all := ids + [e];
    assert all[|ids|] == e;
    assert forall i :: 0 <= i < |ids| ==> all[i] == ids[i];
    forall i | 0 <= i < |ids|
      ensures EntryBound(t', ids[i])
    {
      EntryStays(t, ids[i], e);
    }
  }

  lemma EntryStays(t: TypeTable, d: TypeEntry, e: TypeEntry)
    requires EntryBound(t, d) && !Clash(d, e)
    ensures EntryBound(t.Register(Bits32(e.id), HashOf(e.name)).0, d)
  {
  }

  /** Types are all registered exactly when they are registrable, and the table then holds them. */
  lemma {:induction false} TypesAccepted(s: State, ids: seq<TypeEntry>)
    requires s.types == TypeTable(map[], map[])
    ensures AllOk(s, TypeOps(ids)) <==> Registrable(ids)
    ensures Registrable(ids) ==>
              && TypesBound(Run(s, TypeOps(ids)).types, ids)
              && Run(s, TypeOps(ids)).sites == s.sites && Run(s, TypeOps(ids)).arena == s.arena
    decreases |ids|
  {
    if ids != [] {
      var n := |ids| - 1;
      var front, last := ids[..n], ids[n];
      TypesAccepted(s, front);
      RegistrableStep(front, last);
      assert front + [last] == ids;
      assert TypeOps(ids) == TypeOps(front) + [TypeOp(last)];
      AllOkStep(s, TypeOps(front), TypeOp(last));
      if Registrable(front) {
        TypeVerdict(Run(s, TypeOps(front)).types, front, last);
      }
      if Registrable(ids) {
        TypeStep(Run(s, TypeOps(front)).types, front, last);
      }
    }
  }

  lemma RegistrableStep(front: seq<TypeEntry>, last: TypeEntry)
    ensures Registrable(front + [last]) <==> Registrable(front) && FreshType(front, last)
  {
    var ids := front + [last];
    assert forall k :: 0 <= k < |front| ==> ids[k] == front[k] && ids[..k] == front[..k];
    assert ids[|front|] == last && ids[..|front|] == front;
    if Registrable(ids) {
      forall k | 0 <= k < |front|
        ensures FreshType(front[..k], front[k])
      {
        assert FreshType(ids[..k], ids[k]);
      }
    }
  }

  /** Every emitted table of fewer than 2^32 types is registrable. */
  lemma EmittedTypesRegistrable(ids: seq<TypeEntry>, count: nat)
    requires TypesNumbered(ids, count) && count <= UINT32_MAX
    ensures Registrable(ids)
  {
    forall k | 0 <= k < |ids|
      ensures FreshType(ids[..k], ids[k])
    {
      forall i | 0 <= i < k
        ensures !Clash(ids[i], ids[k])
      {
        assert ids[i].id != ids[k].id && HashOf(ids[i].name) != HashOf(ids[k].name);
      }
    }
  }

  /** The constant of a registered type is bound to its hash. */
  lemma {:induction false} ConstantBound(t: TypeTable, ids: seq<TypeEntry>, name: Name)
    requires NamesType(ids, name) && forall i :: 0 <= i < |ids| ==> EntryBound(t, ids[i])
    ensures Bits32(IdOf(ids, name)) in t.hashes && t.hashes[Bits32(IdOf(ids, name))] == HashOf(name)
  {
    if ids[0].name == name {
      assert EntryBound(t, ids[0]);
    } else {
      assert forall i :: 0 <= i < |ids[1..]| ==> EntryBound(t, ids[1..][i]);
      assert forall i :: 1 <= i < |ids| ==> ids[1..][i - 1] == ids[i];
      ConstantBound(t, ids[1..], name);
    }
  }

  // ----- the wasm site table that results

  /** Exactly the ids `base + 1` to `base + |sites|` are bound, each to its declared type. */
  ghost predicate SiteIdsBound(types: map<Word32, Word>, sites: seq<SiteRecord>, base: int) {
    forall id: Word32 ::
      && (id in types <==> base < id <= base + |sites|)
      && (id in types ==> types[id] == HashOf(sites[id - base - 1].typeName))
  }

  predicate NumberedFrom(sites: seq<SiteRecord>, base: int) {
    && (sites != [] ==> 0 <= base && base + |sites| <= UINT32_MAX)
    && forall k :: 0 <= k < |sites| ==> sites[k].siteId == base + k + 1
  }

  lemma SiteIdStep(s: SiteTable, t: TypeTable, sites: seq<SiteRecord>, base: int, r: SiteRecord, typeId: Word32)
    requires SiteIdsBound(s.types, sites, base) && 0 <= base && base + |sites| + 1 <= UINT32_MAX
    requires r.siteId == base + |sites| + 1 && typeId in t.hashes && t.hashes[typeId] == HashOf(r.typeName)
    ensures s.RegisterId(t, Bits32(r.siteId), typeId).1
    ensures SiteIdsBound(s.RegisterId(t, Bits32(r.siteId), typeId).0.types, sites + [r], base)
  {
    assert Bits32(r.siteId) == base + |sites| + 1;
    var s' := s.RegisterId(t, Bits32(r.siteId), typeId).0;
    forall id: Word32 | id in s.types
      ensures s'.types[id] == HashOf((sites + [r])[id - base - 1].typeName)
    {
      assert base < id <= base + |sites|;
      assert (sites + [r])[id - base - 1] == sites[id - base - 1];
    }
  }

  /** From `s` to `t` only the sites' ids were bound. */
  ghost predicate SiteIdsAdded(s: State, t: State, sites: seq<SiteRecord>, base: int) {
    SiteIdsBound(t.sites.types, sites, base) && t.sites.byStart == map[] && t.types == s.types && t.arena == s.arena
  }

  lemma SiteIdOpStep(s: State, t: State, ids: seq<TypeEntry>, sites: seq<SiteRecord>, base: int, r: SiteRecord)
    requires SiteIdsAdded(s, t, sites, base) && TypesBound(s.types, ids) && NamesType(ids, r.typeName)
    requires 0 <= base && base + |sites| + 1 <= UINT32_MAX && r.siteId == base + |sites| + 1
    ensures Step(t, SiteIdOp(ids, r)).1 == Flag(true)
    ensures SiteIdsAdded(s, Step(t, SiteIdOp(ids, r)).0, sites + [r], base)
  {
    ConstantBound(s.types, ids, r.typeName);
    SiteIdStep(t.sites, s.types, sites, base, r, Bits32(IdOf(ids, r.typeName)));
  }

  lemma SiteIdsSplit(ids: seq<TypeEntry>, front: seq<SiteRecord>, last: SiteRecord)
    requires SitesNamed(ids, front) && NamesType(ids, last.typeName)
    ensures SitesNamed(ids, front + [last])
    ensures SiteIdOps(ids, front + [last]) == SiteIdOps(ids, front) + [SiteIdOp(ids, last)]
  {
  }

  lemma {:induction false} SiteIdsAccepted(s: State, ids: seq<TypeEntry>, sites: seq<SiteRecord>, base: int)
    requires TypesBound(s.types, ids) && SitesNamed(ids, sites) && NumberedFrom(sites, base)
    requires s.sites == SiteTable(map[], map[], map[])
    ensures AllOk(s, SiteIdOps(ids, sites))
    ensures SiteIdsAdded(s, Run(s, SiteIdOps(ids, sites)), sites, base)
    decreases |sites|
  {
    if sites != [] {
      var n := |sites| - 1;
      var front, last := sites[..n], sites[n];
      var ops := SiteIdOps(ids, front);
      assert sites == front + [last];
      SiteIdsSplit(ids, front, last);
      SiteIdsAccepted(s, ids, front, base);
      AllOkStep(s, ops, SiteIdOp(ids, last));
      SiteIdOpStep(s, Run(s, ops), ids, front, base, last);
    }
  }

  // ----- the native site table that results

  predicate FreshSite(sites: seq<AllocationSite>, site: AllocationSite) {
    0 < site.begin < site.end && forall i :: 0 <= i < |sites| ==> sites[i].Disjoint(site.begin, site.end)
  }

  /** Every site resolves to a proper interval, and no two intervals meet. */
  predicate Resolved(sites: seq<AllocationSite>) {
    && (forall k :: 0 <= k < |sites| ==> 0 < sites[k].begin < sites[k].end)
    && (forall i, k :: 0 <= i < k < |sites| ==> sites[i].Disjoint(sites[k].begin, sites[k].end))
  }

  /** The intervals registered are exactly those of the sites. */
  ghost predicate IntervalsBound(s: map<Word, AllocationSite>, sites: seq<AllocationSite>) {
    && (forall k :: 0 <= k < |sites| ==> sites[k].begin in s && s[sites[k].begin] == sites[k])
    && (forall b :: b in s ==> exists k :: 0 <= k < |sites| && sites[k].begin == b)
  }

  lemma FreeMeansDisjoint(s: SiteTable, sites: seq<AllocationSite>, begin: Word, end: Word)
    requires IntervalsBound(s.byStart, sites)
    ensures s.Free(begin, end) <==> forall i :: 0 <= i < |sites| ==> sites[i].Disjoint(begin, end)
  {
    if s.Free(begin, end) {
      forall i | 0 <= i < |sites|
        ensures sites[i].Disjoint(begin, end)
      {
        assert s.byStart[sites[i].begin].Disjoint(begin, end);
      }
    }
  }

  lemma IntervalStep(s: map<Word, AllocationSite>, sites: seq<AllocationSite>, site: AllocationSite)
    requires IntervalsBound(s, sites) && FreshSite(sites, site)
    requires forall k :: 0 <= k < |sites| ==> 0 < sites[k].begin < sites[k].end
    ensures IntervalsBound(s[site.begin := site], sites + [site])
  {
    var all := sites + [site];
    assert all[|sites|] == site;
    assert forall k :: 0 <= k < |sites| ==> all[k] == sites[k] && sites[k].Disjoint(site.begin, site.end);
  }

  /** Sites are numbered from 1, and their types are registered. */
  ghost predicate SitesTyped(t: TypeTable, sites: seq<AllocationSite>) {
    |sites| <= UINT32_MAX && forall k :: 0 <= k < |sites| ==> SiteTyped(t, sites[k]) && sites[k].id == k + 1
  }

  ghost predicate SiteTyped(t: TypeTable, site: AllocationSite) {
    site.typeId in t.hashes && t.hashes[site.typeId] == site.typeHash
  }

  ghost predicate IdsBound(types: map<Word32, Word>, sites: seq<AllocationSite>) {
    forall id: Word32 ::
      && (id in types <==> 0 < id <= |sites|)
      && (id in types ==> types[id] == sites[id - 1].typeHash)
  }

  /** From `s` to `t` only the sites were registered. */
  ghost predicate SitesAdded(s: State, t: State, sites: seq<AllocationSite>) {
    && IntervalsBound(t.sites.byStart, sites) && IdsBound(t.sites.types, sites)
    && t.types == s.types && t.arena == s.arena
  }

  lemma SiteVerdict(s: State, t: State, sites: seq<AllocationSite>, site: AllocationSite)
    requires SitesAdded(s, t, sites) && SiteTyped(s.types, site) && site.id == |sites| + 1
    ensures Step(t, SiteOp(site)).1 == Flag(true) <==> FreshSite(sites, site)
  {
    FreeMeansDisjoint(t.sites, sites, site.begin, site.end);
  }

  lemma SiteOpStep(s: State, t: State, sites: seq<AllocationSite>, site: AllocationSite)
    requires SitesAdded(s, t, sites) && SiteTyped(s.types, site) && site.id == |sites| + 1
    requires Resolved(sites) && FreshSite(sites, site)
    ensures SitesAdded(s, Step(t, SiteOp(site)).0, sites + [site])
  {
    SiteVerdict(s, t, sites, site);
    IntervalStep(t.sites.byStart, sites, site);
    IdsStep(t.sites.types, sites, site);
    RecordedEntry(t, site);
  }

  lemma IdsStep(types: map<Word32, Word>, sites: seq<AllocationSite>, site: AllocationSite)
    requires IdsBound(types, sites) && site.id == |sites| + 1
    ensures IdsBound(types[site.id := site.typeHash], sites + [site])
  {
    forall id: Word32 | id in types
      ensures (sites + [site])[id - 1] == sites[id - 1]
    {
      assert 0 < id <= |sites|;
    }
  }

  lemma RecordedEntry(t: State, site: AllocationSite)
    requires Step(t, SiteOp(site)).1 == Flag(true) && SiteTyped(t.types, site)
    ensures var u := Step(t, SiteOp(site)).0;
            && u.sites.byStart == t.sites.byStart[site.begin := site]
            && u.sites.types == t.sites.types[site.id := site.typeHash]
            && u.types == t.types && u.arena == t.arena
  {
  }

  lemma ResolvedStep(front: seq<AllocationSite>, last: AllocationSite)
    ensures Resolved(front + [last]) <==> Resolved(front) && FreshSite(front, last)
  {
    var sites := front + [last];
    assert forall k :: 0 <= k < |front| ==> sites[k] == front[k];
    assert sites[|front|] == last;
    if Resolved(sites) {
      assert forall i :: 0 <= i < |front| ==> sites[i].Disjoint(sites[|front|].begin, sites[|front|].end);
      assert forall i, k :: 0 <= i < k < |front| ==> sites[i].Disjoint(sites[k].begin, sites[k].end);
    }
  }

  /** Native sites are all registered exactly when their labels resolve to disjoint intervals. */
  lemma {:induction false} SitesAccepted(s: State, sites: seq<AllocationSite>)
    requires s.sites == SiteTable(map[], map[], map[]) && SitesTyped(s.types, sites)
    ensures AllOk(s, SiteOps(sites)) <==> Resolved(sites)
    ensures Resolved(sites) ==> SitesAdded(s, Run(s, SiteOps(sites)), sites)
    decreases |sites|
  {
    if sites != [] {
      var n := |sites| - 1;
      var front, last := sites[..n], sites[n];
      assert sites == front + [last];
      assert SiteOps(sites) == SiteOps(front) + [SiteOp(last)];
      ResolvedStep(front, last);
      SitesAccepted(s, front);
      AllOkStep(s, SiteOps(front), SiteOp(last));
      if Resolved(front) {
        SiteVerdict(s, Run(s, SiteOps(front)), front, last);
      }
      if Resolved(sites) {
        SiteOpStep(s, Run(s, SiteOps(front)), front, last);
      }
    }
  }
}
