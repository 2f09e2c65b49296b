/** The two policy generators: which inputs they accept, and the tables they then emit. */
module PolicyGenerators {
  import opened Machine
  import opened Results
  import opened TypeHash
  import opened PolicyTables

  /** A use whose length is given at run time declares length 0. */
  function Fixed(u: Use): Use {
    if u.isDynamic then u.(bytes := 0) else u
  }

  function FixedUses(uses: seq<Use>): seq<Use> {
    seq(|uses|, i requires 0 <= i < |uses| => Fixed(uses[i]))
  }

  predicate UseOk(u: Use, types: seq<Name>) {
    u.typeName in types && u.offset >= 0 && u.bytes >= 0
  }

  predicate UsesOk(uses: seq<Use>, types: seq<Name>) {
    forall i :: 0 <= i < |uses| ==> UseOk(uses[i], types)
  }

  /** The window of each use, under the hash of its type. */
  function UseEntries(uses: seq<Use>, types: seq<Name>): seq<UseEntry>
    requires UsesOk(uses, types)
  {
    seq(|uses|, i requires 0 <= i < |uses| =>
      UseEntry(HashOf(uses[i].typeName), uses[i].offset, uses[i].bytes))
  }

  predicate UnknownUse(uses: seq<Use>, types: seq<Name>, name: Name) {
    name !in types && exists i :: 0 <= i < |uses| && uses[i].typeName == name
  }

  predicate NegativeUse(uses: seq<Use>) {
    exists i :: 0 <= i < |uses| && (uses[i].offset < 0 || uses[i].bytes < 0)
  }

  method EmitUses(uses: seq<Use>, types: seq<Name>) returns (r: Result<seq<UseEntry>, Error>)
    ensures r.Ok? <==> UsesOk(uses, types)
    ensures r.Ok? ==> r.value == UseEntries(uses, types)
    ensures r.Ok? ==> |r.value| == |uses| && forall i :: 0 <= i < |uses| ==>
              && r.value[i].typeHash == HashOf(uses[i].typeName)
              && r.value[i].offset == uses[i].offset && r.value[i].bytes == uses[i].bytes
    ensures r.Err? ==> (r.error.UnknownType? && UnknownUse(uses, types, r.error.typeName))
                       || (r.error == NegativeRange && NegativeUse(uses))
  {
    var entries: seq<UseEntry> := [];
    for i := 0 to |uses|
      invariant UsesOk(uses[..i], types)
      invariant entries == UseEntries(uses[..i], types)
    {
      if uses[i].typeName !in types {
        return Err(UnknownType(uses[i].typeName));
      }
      var hash := HashType(uses[i].typeName);
      var size := uses[i].bytes;
      if uses[i].offset < 0 || size < 0 {
        return Err(NegativeRange);
      }
      entries := entries + [UseEntry(hash, uses[i].offset, size)];
    }
    assert uses[..|uses|] == uses;
    return Ok(entries);
  }

  /** The first name that is not a known type. */
  method FirstUnknown(names: seq<Name>, types: seq<Name>) returns (r: Option<Name>)
    ensures r.None? <==> forall i :: 0 <= i < |names| ==> names[i] in types
    ensures r.Some? ==> r.value in names && r.value !in types
  {
    for i := 0 to |names|
      invariant forall j :: 0 <= j < i ==> names[j] in types
    {
      if names[i] !in types {
        return Some(names[i]);
      }
    }
    return None;
  }

  function AllocationTypes(allocations: seq<Declaration>): seq<Name> {
    seq(|allocations|, i requires 0 <= i < |allocations| => allocations[i].typeName)
  }

  predicate TypesKnown(allocations: seq<Declaration>, helpers: seq<Helper>, types: seq<Name>) {
    && (forall i :: 0 <= i < |allocations| ==> allocations[i].typeName in types)
    && (forall i :: 0 <= i < |helpers| ==> helpers[i].typeName in types)
  }

  /** No two different types of the policy share a hash. */
  predicate CollisionFree(types: seq<Name>) {
    forall x, y :: x in types && y in types && x != y ==> HashOf(x) != HashOf(y)
  }

  lemma CollisionFreeIsDistinct(types: seq<Name>)
    ensures DistinctNames(Numbered(types))
    ensures DistinctHashes(Numbered(types)) <==> CollisionFree(types)
  {
    var ids := Numbered(types);
    NumberedEntries(types);
    forall i | 0 <= i < |ids|
      ensures ids[i].name in types
    {
      assert ids[i] in ids;
    }
    if DistinctHashes(ids) {
      forall x, y | x in types && y in types && x != y
        ensures HashOf(x) != HashOf(y)
      {
        EveryNameNumbered(types, x);
        EveryNameNumbered(types, y);
        var i :| 0 <= i < |ids| && ids[i].name == x;
        var j :| 0 <= j < |ids| && ids[j].name == y;
      }
    }
  }

  /** Two types of the policy that share a hash. */
  predicate Colliding(types: seq<Name>, a: Name, b: Name) {
    a in types && b in types && a != b && HashOf(a) == HashOf(b)
  }

  /** What an error of the header says about its types and uses. */
  ghost predicate HeaderErrorJustified(e: Error, types: seq<Name>, uses: seq<Use>) {
    match e
    case Collision(a, b) => Colliding(types, a, b)
    case UnknownType(name) => UnknownUse(uses, types, name)
    case NegativeRange => NegativeUse(uses)
    case _ => false
  }

  /** What an error before the source is touched says about types and sites. */
  ghost predicate RecordsErrorJustified(
    e: Error, policy: Policy, boundary: Boundary, types: seq<Name>, base: int, importStem: string)
  {
    match e
    case EmptyTypeName => [] in boundary.types
    case UnknownType(name) =>
      name !in types && (name in AllocationTypes(policy.allocations) || name in HelperTypes(boundary.helpers))
    case _ => SiteErrorJustified(e, policy.allocations, boundary.helpers, base, importStem)
  }

  /** What an error of the native generator says about its input. */
  ghost predicate Justified(e: Error, policy: Policy, boundary: Boundary, types: seq<Name>) {
    match e
    case EmptyTypeName => [] in boundary.types
    case DuplicateType => !NoRepeats(types)
    case UnknownType(name) =>
      && name !in types
      && (name in AllocationTypes(policy.allocations) || name in HelperTypes(boundary.helpers)
          || UnknownUse(policy.uses, types, name))
    case Collision(a, b) => Colliding(types, a, b)
    case FixedAndDynamic => exists i :: 0 <= i < |policy.uses| && policy.uses[i].isDynamic && policy.uses[i].bytes != 0
    case NegativeRange => NegativeUse(policy.uses)
    case DuplicateHelper(name) => RepeatedHelper(boundary.helpers, name)
    case _ => false
  }

  lemma NumberedNameOccurs(types: seq<Name>, name: Name)
    ensures NamesType(Numbered(types), name) ==> name in types
  {
    NumberedEntries(types);
    if NamesType(Numbered(types), name) {
      var i :| 0 <= i < |Numbered(types)| && Numbered(types)[i].name == name;
      assert Numbered(types)[i] in Numbered(types);
    }
  }

  // ----- the wasm generator

  /** Types are named and known, and every site gets a number. */
  ghost predicate WasmNumbers(policy: Policy, boundary: Boundary, base: int, importStem: string) {
    && [] !in boundary.types
    && TypesKnown(policy.allocations, boundary.helpers, Composed(policy.types, boundary.types))
    && Numberable(policy.allocations, boundary.helpers, base, importStem)
  }

  ghost predicate WasmAccepts(policy: Policy, boundary: Boundary, base: int, importStem: string) {
    var types := Composed(policy.types, boundary.types);
    && WasmNumbers(policy, boundary, base, importStem)
    && CollisionFree(types)
    && UsesOk(FixedUses(policy.uses), types)
  }

  function TablesOf(policy: Policy, boundary: Boundary, base: int): Tables
    requires UsesOk(FixedUses(policy.uses), Composed(policy.types, boundary.types))
  {
    var types := Composed(policy.types, boundary.types);
    Tables(
      Numbered(types),
      Records(PreciseTypes(policy.allocations), HelperTypes(boundary.helpers), base),
      UseEntries(FixedUses(policy.uses), types))
  }

  /** The types and sites of the wasm generator, before it touches the source. */
  method WasmRecords(policy: Policy, boundary: Boundary, base: int, importStem: string)
    returns (r: Result<(seq<Name>, seq<SiteRecord>), Error>)
    ensures r.Ok? <==> WasmNumbers(policy, boundary, base, importStem)
    ensures r.Ok? ==>
              r.value == (Composed(policy.types, boundary.types),
                          Records(PreciseTypes(policy.allocations), HelperTypes(boundary.helpers), base))
    ensures r.Err? ==>
              RecordsErrorJustified(r.error, policy, boundary, Composed(policy.types, boundary.types), base, importStem)
  {
    var prepared := PreparePolicy(policy.types, boundary.types);
    if prepared.Err? {
      return Err(prepared.error);
    }
    var types := prepared.value;
    var unknown := FirstUnknown(AllocationTypes(policy.allocations), types);
    if unknown.Some? {
      return Err(UnknownType(unknown.value));
    }
    assert forall i :: 0 <= i < |policy.allocations| ==>
        AllocationTypes(policy.allocations)[i] == policy.allocations[i].typeName;
    unknown := FirstUnknown(HelperTypes(boundary.helpers), types);
    if unknown.Some? {
      return Err(UnknownType(unknown.value));
    }
    assert forall i :: 0 <= i < |boundary.helpers| ==>
        HelperTypes(boundary.helpers)[i] == boundary.helpers[i].typeName;
    var sites := SiteRecords(policy.allocations, boundary.helpers, base, importStem);
    if sites.Err? {
      return Err(sites.error);
    }
    return Ok((types, sites.value));
  }

  /** The collision test of both generators on the numbers of the types. */
  method CheckHashes(types: seq<Name>, ids: seq<TypeEntry>) returns (r: Option<Error>)
    requires ids == Numbered(types)
    ensures r.None? <==> CollisionFree(types)
    ensures r.Some? ==> r.value.Collision? && Colliding(types, r.value.first, r.value.second)
  {
    CollisionFreeIsDistinct(types);
    var collision := FindCollision(ids);
    if collision.Some? {
      NumberedNameOccurs(types, collision.value.0);
      NumberedNameOccurs(types, collision.value.1);
      return Some(Collision(collision.value.0, collision.value.1));
    }
    return None;
  }

  /** The numbers and windows of the wasm header, after the source was instrumented. */
  method WasmHeader(types: seq<Name>, uses: seq<Use>)
    returns (r: Result<(seq<TypeEntry>, seq<UseEntry>), Error>)
    ensures r.Ok? <==> CollisionFree(types) && UsesOk(FixedUses(uses), types)
    ensures r.Ok? ==> r.value == (Numbered(types), UseEntries(FixedUses(uses), types))
    ensures r.Err? ==> HeaderErrorJustified(r.error, types, FixedUses(uses))
  {
    var ids := TypeNumbers(types);
    var collision := CheckHashes(types, ids);
    if collision.Some? {
      return Err(collision.value);
    }
    var entries := EmitUses(FixedUses(uses), types);
    if entries.Err? {
      return Err(entries.error);
    }
    return Ok((ids, entries.value));
  }

  // ----- the native generator

  predicate NoRepeats(types: seq<Name>) {
    forall i, j :: 0 <= i < j < |types| ==> types[i] != types[j]
  }

  /** Policy and boundary before the source is touched: declared lengths, types and allocations. */
  ghost predicate NativeNumbers(policy: Policy, types: seq<Name>) {
    NoRepeats(types) && CollisionFree(types) && TypesKnown(policy.allocations, [], types)
  }

  predicate NoFixedDynamic(uses: seq<Use>) {
    forall i :: 0 <= i < |uses| && uses[i].isDynamic ==> uses[i].bytes == 0
  }

  ghost predicate NativeAccepts(policy: Policy, boundary: Boundary) {
    var types := Composed(policy.types, boundary.types);
    && [] !in boundary.types
    && NoFixedDynamic(policy.uses)
    && NativeNumbers(policy, types)
    && TypesKnown([], boundary.helpers, types)
    && UsesOk(FixedUses(policy.uses), types)
    && DistinctHelpers(boundary.helpers)
  }

  /** The generator compares the number of names with the number of dictionary entries. */
  lemma {:induction false} EntriesCountNames(types: seq<Name>)
    ensures |Numbered(types)| <= |types|
    ensures |Numbered(types)| == |types| <==> NoRepeats(types)
  {
    if types != [] {
      var n := |types| - 1;
      EntriesCountNames(types[..n]);
      PutLength(Numbered(types[..n]), types[n], |types|);
      NumberedEntries(types[..n]);
      var ids := Numbered(types[..n]);
      assert types == types[..n] + [types[n]];
      if types[n] in types[..n] {
        EveryNameNumbered(types[..n], types[n]);
        var i :| 0 <= i < n && types[i] == types[n];
        assert !NoRepeats(types);
      } else {
        assert forall i :: 0 <= i < |ids| ==> ids[i] in ids && Numbers(types[..n], ids[i]);
        assert NoRepeats(types) <==> NoRepeats(types[..n]);
      }
    }
  }

  lemma {:induction false} PutLength(ids: seq<TypeEntry>, name: Name, id: nat)
    ensures |Put(ids, name, id)| == |ids| + if exists i :: 0 <= i < |ids| && ids[i].name == name then 0 else 1
  {
    if ids != [] && ids[0].name != name {
      PutLength(ids[1..], name, id);
      assert ids == [ids[0]] + ids[1..];
      assert (exists i :: 0 <= i < |ids[1..]| && ids[1..][i].name == name) ==>
          exists i :: 0 <= i < |ids| && ids[i].name == name;
    }
  }

  /** Among the first `n` allocations, exactly the precise ones are numbered, each by its rank. */
  predicate RanksPrecise(siteIds: map<nat, nat>, allocations: seq<Declaration>, n: nat)
    requires n <= |allocations|
  {
    && (forall i: nat :: i < n && allocations[i].precise ==> i in siteIds)
    && (forall i: nat :: i in siteIds ==> i < n && allocations[i].precise && siteIds[i] == LocalId(allocations, i))
  }

  method NumberPrecise(allocations: seq<Declaration>, types: seq<Name>)
    returns (r: Result<map<nat, nat>, Error>)
    ensures r.Ok? <==> TypesKnown(allocations, [], types)
    ensures r.Ok? ==> RanksPrecise(r.value, allocations, |allocations|)
    ensures r.Err? ==> r.error.UnknownType? && r.error.typeName !in types
                       && r.error.typeName in AllocationTypes(allocations)
  {
    var siteIds: map<nat, nat> := map[];
    var nextSiteId := 1;
    for i := 0 to |allocations|
      invariant TypesKnown(allocations[..i], [], types)
      invariant nextSiteId == |PreciseTypes(allocations[..i])| + 1
      invariant RanksPrecise(siteIds, allocations, i)
    {
      if allocations[i].typeName !in types {
        assert AllocationTypes(allocations)[i] == allocations[i].typeName;
        return Err(UnknownType(allocations[i].typeName));
      }
      assert allocations[..i + 1][..i] == allocations[..i];
      if allocations[i].precise {
        siteIds := siteIds[i := nextSiteId];
        nextSiteId := nextSiteId + 1;
      }
    }
    assert allocations[..|allocations|] == allocations;
    return Ok(siteIds);
  }

  /** The numbered precise allocations, in the order of the policy. */
  method SiteEntries(allocations: seq<Declaration>, siteIds: map<nat, nat>) returns (records: seq<SiteRecord>)
    requires RanksPrecise(siteIds, allocations, |allocations|)
    ensures records == Records(PreciseTypes(allocations), [], 0)
  {
    records := [];
    for i := 0 to |allocations|
      invariant records == Records(PreciseTypes(allocations[..i]), [], 0)
    {
      assert allocations[..i + 1][..i] == allocations[..i];
      if i in siteIds {
        RecordsStep(PreciseTypes(allocations[..i]), [], 0, allocations[i].typeName);
        records := records + [SiteRecord(siteIds[i], siteIds[i], allocations[i].typeName, false)];
      }
    }
    assert allocations[..|allocations|] == allocations;
  }

  /** Helper sites follow the precise ones; names must be new and types known. */
  method HelperEntries(precise: seq<Name>, helpers: seq<Helper>, types: seq<Name>)
    returns (r: Result<seq<SiteRecord>, Error>)
    ensures r.Ok? <==> DistinctHelpers(helpers) && TypesKnown([], helpers, types)
    ensures r.Ok? ==> Records(precise, [], 0) + r.value == Records(precise, HelperTypes(helpers), 0)
    ensures r.Err? ==>
              match r.error
              case DuplicateHelper(name) => RepeatedHelper(helpers, name)
              case UnknownType(name) => name !in types && name in HelperTypes(helpers)
              case _ => false
  {
    var seen: set<Name> := {};
    var entries: seq<SiteRecord> := [];
    for i := 0 to |helpers|
      invariant TypesKnown([], helpers[..i], types) && NamesSeen(seen, helpers, i)
      invariant Records(precise, [], 0) + entries == Records(precise, HelperTypes(helpers[..i]), 0)
    {
      NameSeen(seen, helpers, i);
      if helpers[i].name in seen {
        return Err(DuplicateHelper(helpers[i].name));
      }
      if helpers[i].typeName !in types {
        assert HelperTypes(helpers)[i] == helpers[i].typeName;
        return Err(UnknownType(helpers[i].typeName));
      }
      seen := seen + {helpers[i].name};
      HelperStep(precise, helpers, 0, i);
      entries := entries + [SiteRecord(|precise| + i + 1, |precise| + i + 1, helpers[i].typeName, true)];
    }
    assert helpers[..|helpers|] == helpers;
    return Ok(entries);
  }

  /** The uses of a prepared policy: dynamic ones must not declare a length, and then declare 0. */
  method PrepareUses(uses: seq<Use>) returns (r: Result<seq<Use>, Error>)
    ensures r == if NoFixedDynamic(uses) then Ok(FixedUses(uses)) else Err(FixedAndDynamic)
  {
    var prepared: seq<Use> := [];
    for i := 0 to |uses|
      invariant NoFixedDynamic(uses[..i])
      invariant prepared == FixedUses(uses[..i])
    {
      if uses[i].isDynamic && uses[i].bytes != 0 {
        return Err(FixedAndDynamic);
      }
      prepared := prepared + [if uses[i].isDynamic then uses[i].(bytes := 0) else uses[i]];
    }
    assert uses[..|uses|] == uses;
    return Ok(prepared);
  }

  /** The numbers `generate` gives to types and precise allocations before it touches the source. */
  method NativeIds(policy: Policy, types: seq<Name>) returns (r: Result<(seq<TypeEntry>, map<nat, nat>), Error>)
    ensures r.Ok? <==> NativeNumbers(policy, types)
    ensures r.Ok? ==> r.value.0 == Numbered(types)
    ensures r.Ok? ==> RanksPrecise(r.value.1, policy.allocations, |policy.allocations|)
    ensures r.Err? ==> Justified(r.error, policy, Boundary([], []), types)
  {
    var ids := TypeNumbers(types);
    EntriesCountNames(types);
    if |ids| != |types| {
      return Err(DuplicateType);
    }
    var collision := CheckHashes(types, ids);
    if collision.Some? {
      return Err(collision.value);
    }
    var siteIds := NumberPrecise(policy.allocations, types);
    if siteIds.Err? {
      return Err(siteIds.error);
    }
    return Ok((ids, siteIds.value));
  }

  // ----- what every emitted table satisfies

  predicate NamesType(ids: seq<TypeEntry>, name: Name) {
    exists i :: 0 <= i < |ids| && ids[i].name == name
  }

  /** Sites are numbered without gaps, and name types of the table. */
  predicate SitesNumbered(t: Tables, base: int) {
    forall k :: 0 <= k < |t.sites| ==>
      && t.sites[k].siteId == base + k + 1 && t.sites[k].localId == k + 1
      && NamesType(t.types, t.sites[k].typeName)
  }

  /** Types have distinct names, numbers and hashes. */
  ghost predicate TypesNumbered(ids: seq<TypeEntry>, count: nat) {
    && (forall i :: 0 <= i < |ids| ==> 1 <= ids[i].id <= count)
    && forall i, j :: 0 <= i < j < |ids| ==>
      && ids[i].name != ids[j].name && ids[i].id != ids[j].id && HashOf(ids[i].name) != HashOf(ids[j].name)
  }

  lemma NumberedIsDistinct(types: seq<Name>)
    requires CollisionFree(types)
    ensures TypesNumbered(Numbered(types), |types|)
  {
    var ids := Numbered(types);
    CollisionFreeIsDistinct(types);
    NumberedEntries(types);
    forall i | 0 <= i < |ids|
      ensures Numbers(types, ids[i])
    {
      assert ids[i] in ids;
    }
    forall i, j | 0 <= i < j < |ids|
      ensures ids[i].id != ids[j].id
    {
      NumbersDiffer(types, ids[i], ids[j]);
    }
  }

  lemma NumbersDiffer(types: seq<Name>, e: TypeEntry, f: TypeEntry)
    requires Numbers(types, e) && Numbers(types, f) && e.name != f.name
    ensures e.id != f.id
  {
  }

  lemma KnownIsNamed(types: seq<Name>, name: Name)
    requires name in types
    ensures NamesType(Numbered(types), name)
  {
    EveryNameNumbered(types, name);
    var e :| e in Numbered(types) && e.name == name;
    var i :| 0 <= i < |Numbered(types)| && Numbered(types)[i] == e;
  }

  lemma {:induction false} PreciseKnown(allocations: seq<Declaration>, types: seq<Name>)
    requires TypesKnown(allocations, [], types)
    ensures forall k :: 0 <= k < |PreciseTypes(allocations)| ==> PreciseTypes(allocations)[k] in types
  {
    if allocations != [] {
      PreciseKnown(allocations[..|allocations| - 1], types);
    }
  }

  /** Whatever either generator accepts, its tables are well numbered. */
  lemma EmittedTables(policy: Policy, boundary: Boundary, base: int, importStem: string)
    requires WasmAccepts(policy, boundary, base, importStem) || (NativeAccepts(policy, boundary) && base == 0)
    ensures var t := TablesOf(policy, boundary, base);
            && TypesNumbered(t.types, |Composed(policy.types, boundary.types)|)
            && SitesNumbered(t, base)
  {
    var types := Composed(policy.types, boundary.types);
    var t := TablesOf(policy, boundary, base);
    NumberedIsDistinct(types);
    PreciseKnown(policy.allocations, types);
    var precise, helpers := PreciseTypes(policy.allocations), HelperTypes(boundary.helpers);
    forall k | 0 <= k < |t.sites|
      ensures NamesType(t.types, t.sites[k].typeName)
    {
      assert t.sites[k].typeName == (precise + helpers)[k];
      assert k >= |precise| ==> (precise + helpers)[k] == boundary.helpers[k - |precise|].typeName;
      KnownIsNamed(types, t.sites[k].typeName);
    }
  }

  /** No policy over short ASCII names is refused for a collision. */
  lemma ShortNamesAccepted(types: seq<Name>)
    requires forall x :: x in types ==> Ascii(x) && |x| <= 9
    ensures CollisionFree(types)
  {
    forall x, y | x in types && y in types && x != y
      ensures HashOf(x) != HashOf(y)
    {
      ShortNamesDiffer(x, y);
    }
  }
}
