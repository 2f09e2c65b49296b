/**
 * What the policy generators put into a trusted header: type numbers, allocation sites and
 * access windows, kept as tables keyed by type name.
 */
module PolicyTables {
  import opened Machine
  import opened Results
  import opened TypeHash

  /** A type or helper name, in UTF-8. */
  type Name = seq<Byte>

  /** Where an analysed `malloc` stands, in lines and columns from 1. */
  datatype Place = Place(startLine: int, startColumn: int, endLine: int, endColumn: int)

  /** An analysed allocation in a function; a precise one names its place in the source. */
  datatype Declaration = Declaration(typeName: Name, function_: string, place: Option<Place>) {
    const precise: bool := place.Some?
  }

  /** A hand-written allocation site of a boundary file. */
  datatype Helper = Helper(name: Name, typeName: Name)

  datatype Use = Use(typeName: Name, offset: int, bytes: int, isDynamic: bool)

  datatype Policy = Policy(types: seq<Name>, allocations: seq<Declaration>, uses: seq<Use>)

  datatype Boundary = Boundary(types: seq<Name>, helpers: seq<Helper>)

  datatype Error =
    | EmptyTypeName
    | DuplicateType
    | UnknownType(typeName: Name)
    | ImpreciseSite
    | SiteIdRange
    | EmptyNamespace
    | DuplicateHelper(name: Name)
    | Collision(first: Name, second: Name)
    | FixedAndDynamic
    | NegativeRange

  datatype TypeEntry = TypeEntry(name: Name, id: nat)

  datatype SiteRecord = SiteRecord(siteId: int, localId: nat, typeName: Name, helper: bool)

  datatype UseEntry = UseEntry(typeHash: Word, offset: nat, bytes: nat)

  datatype Tables = Tables(types: seq<TypeEntry>, sites: seq<SiteRecord>, uses: seq<UseEntry>)

  // ----- the types of a composed policy

  /** The policy's own types, then each boundary type that is not there yet. */
  function Composed(types: seq<Name>, extra: seq<Name>): seq<Name> {
    if extra == [] then types
    else
      var n := |extra| - 1;
      var before := Composed(types, extra[..n]);
      if extra[n] in before then before else before + [extra[n]]
  }

  method PreparePolicy(types: seq<Name>, extra: seq<Name>) returns (r: Result<seq<Name>, Error>)
    ensures r == if [] in extra then Err(EmptyTypeName) else Ok(Composed(types, extra))
  {
    var composed := types;
    var known := set x | x in types;
    for i := 0 to |extra|
      invariant [] !in extra[..i]
      invariant composed == Composed(types, extra[..i])
      invariant forall x :: x in known <==> x in composed
    {
      assert extra[..i + 1][..i] == extra[..i];
      if extra[i] == [] {
        return Err(EmptyTypeName);
      }
      if extra[i] !in known {
        composed := composed + [extra[i]];
        known := known + {extra[i]};
      }
    }
    assert extra[..|extra|] == extra;
    return Ok(composed);
  }

  /** Composition keeps the policy's types in place and adds exactly the new ones, once each. */
  lemma {:induction false} ComposedTypes(types: seq<Name>, extra: seq<Name>)
    ensures types <= Composed(types, extra)
    ensures forall x :: x in Composed(types, extra) <==> x in types || x in extra
    ensures forall i, j :: |types| <= j < |Composed(types, extra)| && 0 <= i < j ==>
                             Composed(types, extra)[i] != Composed(types, extra)[j]
  {
    if extra != [] {
      var n := |extra| - 1;
      ComposedTypes(types, extra[..n]);
      assert extra == extra[..n] + [extra[n]];
    }
  }

  // ----- type numbers

  /** Assignment to a dictionary that keeps its insertion order. */
  function Put(ids: seq<TypeEntry>, name: Name, id: nat): seq<TypeEntry> {
    if ids == [] then [TypeEntry(name, id)]
    else if ids[0].name == name then [TypeEntry(name, id)] + ids[1..]
    else [ids[0]] + Put(ids[1..], name, id)
  }

  /** A type is numbered by its position, counted from 1; a repeated type by its last position. */
  function Numbered(types: seq<Name>): seq<TypeEntry> {
    if types == [] then [] else Put(Numbered(types[..|types| - 1]), types[|types| - 1], |types|)
  }

  predicate DistinctNames(ids: seq<TypeEntry>) {
    forall i, j :: 0 <= i < j < |ids| ==> ids[i].name != ids[j].name
  }

  lemma {:induction false} PutEntries(ids: seq<TypeEntry>, name: Name, id: nat)
    requires DistinctNames(ids)
    ensures DistinctNames(Put(ids, name, id))
    ensures forall e :: e in Put(ids, name, id) <==> e == TypeEntry(name, id) || (e in ids && e.name != name)
  {
    if ids != [] {
      assert ids == [ids[0]] + ids[1..];
      TailNames(ids);
      if ids[0].name != name {
        PutEntries(ids[1..], name, id);
        HeadIsNew(ids[0], Put(ids[1..], name, id));
      } else {
        HeadIsNew(TypeEntry(name, id), ids[1..]);
      }
    }
  }

  lemma TailNames(ids: seq<TypeEntry>)
    requires ids != [] && DistinctNames(ids)
    ensures DistinctNames(ids[1..])
    ensures forall e :: e in ids[1..] ==> e.name != ids[0].name
  {
    assert forall e :: e in ids[1..] ==> exists j :: 1 <= j < |ids| && ids[j] == e;
  }

  lemma HeadIsNew(e: TypeEntry, rest: seq<TypeEntry>)
    requires DistinctNames(rest) && forall d :: d in rest ==> d.name != e.name
    ensures DistinctNames([e] + rest)
  {
    assert forall i :: 0 <= i < |rest| ==> rest[i] in rest;
  }

  /** `e` numbers the last occurrence of its name. */
  predicate Numbers(types: seq<Name>, e: TypeEntry) {
    1 <= e.id <= |types| && types[e.id - 1] == e.name && e.name !in types[e.id..]
  }

  /** One entry for each name that occurs, with the number of its last occurrence. */
  lemma {:induction false} NumberedEntries(types: seq<Name>)
    ensures DistinctNames(Numbered(types))
    ensures forall e :: e in Numbered(types) <==> Numbers(types, e)
  {
    if types != [] {
      var n := |types| - 1;
      NumberedEntries(types[..n]);
      PutEntries(Numbered(types[..n]), types[n], |types|);
      assert types == types[..n] + [types[n]];
      forall e: TypeEntry
        ensures Numbers(types, e) <==> e == TypeEntry(types[n], |types|) || (Numbers(types[..n], e) && e.name != types[n])
      {
        NumbersStep(types[..n], types[n], e);
      }
    }
  }

  lemma NumbersStep(types: seq<Name>, last: Name, e: TypeEntry)
    ensures Numbers(types + [last], e) <==>
            e == TypeEntry(last, |types| + 1) || (Numbers(types, e) && e.name != last)
  {
    var all := types + [last];
    if 1 <= e.id <= |types| {
      assert all[e.id..] == types[e.id..] + [last];
    }
  }

  /** Every name that occurs has a number. */
  lemma {:induction false} EveryNameNumbered(types: seq<Name>, name: Name)
    requires name in types
    ensures exists e :: e in Numbered(types) && e.name == name
  {
    var id := LastPlace(types, name);
    NumberedEntries(types);
    assert TypeEntry(name, id) in Numbered(types);
  }

  lemma {:induction false} LastPlace(types: seq<Name>, name: Name) returns (id: nat)
    requires name in types
    ensures Numbers(types, TypeEntry(name, id))
  {
    var n := |types| - 1;
    if types[n] == name {
      id := |types|;
    } else {
      assert types == types[..n] + [types[n]];
      id := LastPlace(types[..n], name);
      NumbersStep(types[..n], types[n], TypeEntry(name, id));
    }
  }

  method TypeNumbers(types: seq<Name>) returns (ids: seq<TypeEntry>)
    ensures ids == Numbered(types)
  {
    ids := [];
    for index := 0 to |types|
      invariant ids == Numbered(types[..index])
    {
      assert types[..index + 1][..index] == types[..index];
      ids := Put(ids, types[index], index + 1);
    }
    assert types[..|types|] == types;
  }

  // ----- collisions

  predicate DistinctHashes(ids: seq<TypeEntry>) {
    forall i, j :: 0 <= i < j < |ids| ==> HashOf(ids[i].name) != HashOf(ids[j].name)
  }

  /** The hash table loop: it finds a collision exactly when there is one, and names both types. */
  method FindCollision(ids: seq<TypeEntry>) returns (r: Option<(Name, Name)>)
    requires DistinctNames(ids)
    ensures r.None? <==> DistinctHashes(ids)
    ensures r.Some? ==> r.value.0 != r.value.1 && HashOf(r.value.0) == HashOf(r.value.1)
    ensures r.Some? ==> exists i :: 0 <= i < |ids| && ids[i].name == r.value.0
    ensures r.Some? ==> exists i :: 0 <= i < |ids| && ids[i].name == r.value.1
  {
    var hashes: map<Word, Name> := map[];
    for i := 0 to |ids|
      invariant DistinctHashes(ids[..i])
      invariant forall j :: 0 <= j < i ==> HashOf(ids[j].name) in hashes
      invariant forall h :: h in hashes ==> exists j :: 0 <= j < i && hashes[h] == ids[j].name && HashOf(ids[j].name) == h
    {
      var value := HashType(ids[i].name);
      if value in hashes {
        return Some((hashes[value], ids[i].name));
      }
      hashes := hashes[value := ids[i].name];
    }
    assert ids[..|ids|] == ids;
    return None;
  }

  // ----- sites

  /** The types of the precise allocations, in order. */
  function PreciseTypes(allocations: seq<Declaration>): seq<Name> {
    if allocations == [] then []
    else
      var n := |allocations| - 1;
      PreciseTypes(allocations[..n]) + (if allocations[n].precise then [allocations[n].typeName] else [])
  }

  function HelperTypes(helpers: seq<Helper>): seq<Name> {
    seq(|helpers|, k requires 0 <= k < |helpers| => helpers[k].typeName)
  }

  /** Sites are numbered from `base + 1` on, precise allocations before helpers. */
  function Records(precise: seq<Name>, helpers: seq<Name>, base: int): seq<SiteRecord> {
    seq(|precise + helpers|, k requires 0 <= k < |precise + helpers| =>
      SiteRecord(base + k + 1, k + 1, (precise + helpers)[k], k >= |precise|))
  }

  predicate DistinctHelpers(helpers: seq<Helper>) {
    forall i, j :: 0 <= i < j < |helpers| ==> helpers[i].name != helpers[j].name
  }

  /** The local number of allocation `i`: one more than the precise allocations before it. */
  function LocalId(allocations: seq<Declaration>, i: nat): nat
    requires i < |allocations|
  {
    |PreciseTypes(allocations[..i])| + 1
  }

  /** The site numbered for a precise allocation carries the type of that allocation. */
  lemma {:induction false} SiteOfAllocation(allocations: seq<Declaration>, helpers: seq<Name>, base: int, i: nat)
    requires i < |allocations| && allocations[i].precise
    ensures var k, records := LocalId(allocations, i), Records(PreciseTypes(allocations), helpers, base);
            k <= |records|
            && records[k - 1] == SiteRecord(base + k, k, allocations[i].typeName, false)
  {
    RankedType(allocations, i);
  }

  lemma {:induction false} RankedType(allocations: seq<Declaration>, i: nat)
    requires i < |allocations| && allocations[i].precise
    ensures var k := |PreciseTypes(allocations[..i])|;
            k < |PreciseTypes(allocations)| && PreciseTypes(allocations)[k] == allocations[i].typeName
    decreases |allocations|
  {
    var n := |allocations| - 1;
    if i < n {
      assert allocations[..n][..i] == allocations[..i];
      RankedType(allocations[..n], i);
    }
  }

  /** Precise allocations are numbered upwards in their order. */
  lemma {:induction false} LocalIdsIncrease(allocations: seq<Declaration>, i: nat, j: nat)
    requires i < j < |allocations| && allocations[i].precise
    ensures LocalId(allocations, i) < LocalId(allocations, j)
    decreases j
  {
    if i + 1 < j {
      LocalIdsIncrease(allocations, i, j - 1);
    }
    assert allocations[..j][..j - 1] == allocations[..j - 1];
  }

  /** Every number up to the count of precise allocations is that of one of them. */
  lemma {:induction false} AllocationOfNumber(allocations: seq<Declaration>, k: nat) returns (i: nat)
    requires k < |PreciseTypes(allocations)|
    ensures i < |allocations| && allocations[i].precise && LocalId(allocations, i) == k + 1
    decreases |allocations|
  {
    var n := |allocations| - 1;
    if k < |PreciseTypes(allocations[..n])| {
      i := AllocationOfNumber(allocations[..n], k);
      assert allocations[..n][..i] == allocations[..i];
    } else {
      i := n;
    }
  }

  /** The site after those of the allocations that is numbered for helper `j` has that helper's type. */
  lemma SiteOfHelper(allocations: seq<Declaration>, helpers: seq<Helper>, base: int, j: nat)
    requires j < |helpers|
    ensures var k, records := |PreciseTypes(allocations)| + j + 1,
                              Records(PreciseTypes(allocations), HelperTypes(helpers), base);
            && |records| == |PreciseTypes(allocations)| + |helpers|
            && records[k - 1] == SiteRecord(base + k, k, helpers[j].typeName, true)
  {
  }

  /** The precise allocation `i` is the one that record `k` was made for. */
  predicate MadeForAllocation(records: seq<SiteRecord>, k: nat, base: int, allocations: seq<Declaration>, i: nat)
    requires k < |records| && i < |allocations|
  {
    && allocations[i].precise && LocalId(allocations, i) == k + 1
    && records[k] == SiteRecord(base + k + 1, k + 1, allocations[i].typeName, false)
  }

  /** The helper `j` is the one that record `k` was made for. */
  predicate MadeForHelper(records: seq<SiteRecord>, k: nat, base: int, count: nat, helpers: seq<Helper>, j: nat)
    requires k < |records| && j < |helpers|
  {
    k == count + j && records[k] == SiteRecord(base + k + 1, k + 1, helpers[j].typeName, true)
  }

  /** Every record is made for exactly one precise allocation, or else for exactly one helper. */
  lemma RecordsAreDeclared(allocations: seq<Declaration>, helpers: seq<Helper>, base: int, k: nat)
    requires k < |PreciseTypes(allocations)| + |helpers|
    ensures var count, records := |PreciseTypes(allocations)|,
                                  Records(PreciseTypes(allocations), HelperTypes(helpers), base);
            if k < count
            then exists i :: 0 <= i < |allocations| && MadeForAllocation(records, k, base, allocations, i)
                             && forall i' :: 0 <= i' < |allocations| && i' != i ==>
                                  !MadeForAllocation(records, k, base, allocations, i')
            else 0 <= k - count < |helpers| && MadeForHelper(records, k, base, count, helpers, k - count)
  {
    var count := |PreciseTypes(allocations)|;
    if k < count {
      var i := AllocationOfNumber(allocations, k);
      SiteOfAllocation(allocations, HelperTypes(helpers), base, i);
      assert MadeForAllocation(Records(PreciseTypes(allocations), HelperTypes(helpers), base), k, base, allocations, i);
      forall i' | 0 <= i' < |allocations| && i' != i && allocations[i'].precise
        ensures LocalId(allocations, i') != k + 1
      {
        LocalIdsIncrease(allocations, if i < i' then i else i', if i < i' then i' else i);
      }
    } else {
      SiteOfHelper(allocations, helpers, base, k - count);
    }
  }

  /** When every allocation is precise, sites are numbered like the allocations themselves. */
  lemma {:induction false} AllPrecise(allocations: seq<Declaration>)
    requires forall i :: 0 <= i < |allocations| ==> allocations[i].precise
    ensures |PreciseTypes(allocations)| == |allocations|
  {
    if allocations != [] {
      AllPrecise(allocations[..|allocations| - 1]);
    }
  }

  /** The number of a site, or nothing when it does not fit the 32 bits of a SiteId. */
  function RuntimeSiteId(base: int, localId: nat): (r: Result<nat, Error>)
    requires localId > 0
    ensures r.Ok? <==> 0 <= base && base + localId <= UINT32_MAX
    ensures r.Ok? ==> base < r.value <= UINT32_MAX
    ensures r.Err? ==> r.error == SiteIdRange
  {
    if base < 0 || base > UINT32_MAX then Err(SiteIdRange)
    else
      var id := base + localId;
      if id <= 0 || id > UINT32_MAX then Err(SiteIdRange) else Ok(id)
  }

  /** Exactly the inputs for which every site gets a number. */
  predicate Numberable(allocations: seq<Declaration>, helpers: seq<Helper>, base: int, importStem: string) {
    && (forall i :: 0 <= i < |allocations| ==> allocations[i].precise)
    && DistinctHelpers(helpers)
    && (|allocations| + |helpers| > 0 ==>
          importStem != "" && 0 <= base && base + |allocations| + |helpers| <= UINT32_MAX)
  }

  /** `seen` holds the names of the first `n` helpers, which are all different. */
  ghost predicate NamesSeen(seen: set<Name>, helpers: seq<Helper>, n: nat)
    requires n <= |helpers|
  {
    && DistinctHelpers(helpers[..n])
    && (forall j :: 0 <= j < n ==> helpers[j].name in seen)
    && (forall x :: x in seen ==> exists j :: 0 <= j < n && helpers[j].name == x)
  }

  lemma NameSeen(seen: set<Name>, helpers: seq<Helper>, n: nat)
    requires n < |helpers| && NamesSeen(seen, helpers, n)
    ensures helpers[n].name in seen ==> RepeatedHelper(helpers, helpers[n].name) && !DistinctHelpers(helpers)
    ensures helpers[n].name !in seen ==> NamesSeen(seen + {helpers[n].name}, helpers, n + 1)
  {
    var all := helpers[..n + 1];
    assert all == helpers[..n] + [helpers[n]];
    if helpers[n].name !in seen {
      forall x | x in seen + {helpers[n].name}
        ensures exists j :: 0 <= j < n + 1 && helpers[j].name == x
      {
        assert x !in seen ==> helpers[n].name == x;
      }
    }
  }

  /** What an error of the site numbering says about its input. */
  predicate SiteErrorJustified(
    e: Error, allocations: seq<Declaration>, helpers: seq<Helper>, base: int, importStem: string)
  {
    match e
    case ImpreciseSite => exists i :: 0 <= i < |allocations| && !allocations[i].precise
    case SiteIdRange => base < 0 || base + |allocations| + |helpers| > UINT32_MAX
    case EmptyNamespace => importStem == ""
    case DuplicateHelper(name) => RepeatedHelper(helpers, name)
    case _ => false
  }

  predicate RepeatedHelper(helpers: seq<Helper>, name: Name) {
    exists i, j :: 0 <= i < j < |helpers| && helpers[i].name == name && helpers[j].name == name
  }

  lemma RecordsStep(precise: seq<Name>, helpers: seq<Name>, base: int, name: Name)
    ensures Records(precise + [name], [], base) ==
            Records(precise, [], base) + [SiteRecord(base + |precise| + 1, |precise| + 1, name, false)]
    ensures var k := |precise| + |helpers| + 1;
            Records(precise, helpers + [name], base) ==
              Records(precise, helpers, base) + [SiteRecord(base + k, k, name, true)]
  {
    assert precise + (helpers + [name]) == (precise + helpers) + [name];
  }

  /** One more helper is one more record. */
  lemma HelperStep(precise: seq<Name>, helpers: seq<Helper>, base: int, i: nat)
    requires i < |helpers|
    ensures var k := |precise| + i + 1;
            Records(precise, HelperTypes(helpers[..i + 1]), base) ==
              Records(precise, HelperTypes(helpers[..i]), base) + [SiteRecord(base + k, k, helpers[i].typeName, true)]
  {
    assert HelperTypes(helpers[..i + 1]) == HelperTypes(helpers[..i]) + [helpers[i].typeName];
    RecordsStep(precise, HelperTypes(helpers[..i]), base, helpers[i].typeName);
  }

  /** What is checked for one site before its record is made. */
  function NextRecord(base: int, localId: nat, importStem: string, typeName: Name, helper: bool)
    : (r: Result<SiteRecord, Error>)
    requires localId > 0
    ensures r.Ok? <==> importStem != "" && 0 <= base && base + localId <= UINT32_MAX
    ensures r.Ok? ==> r.value == SiteRecord(base + localId, localId, typeName, helper)
    ensures r.Err? ==> (r.error == SiteIdRange && (base < 0 || base + localId > UINT32_MAX))
                       || (r.error == EmptyNamespace && importStem == "")
  {
    var id :- RuntimeSiteId(base, localId);
    if importStem == "" then Err(EmptyNamespace) else Ok(SiteRecord(id, localId, typeName, helper))
  }

  lemma PreciseStep(allocations: seq<Declaration>, i: nat)
    requires i < |allocations| && allocations[i].precise
    ensures PreciseTypes(allocations[..i + 1]) == PreciseTypes(allocations[..i]) + [allocations[i].typeName]
  {
    assert allocations[..i + 1][..i] == allocations[..i];
    assert allocations[..i + 1][i] == allocations[i];
  }

  lemma NumberableStep(allocations: seq<Declaration>, i: nat, base: int, importStem: string)
    requires i < |allocations| && allocations[i].precise
    requires importStem != "" && 0 <= base && base + i + 1 <= UINT32_MAX
    requires Numberable(allocations[..i], [], base, importStem)
    ensures Numberable(allocations[..i + 1], [], base, importStem)
  {
    assert allocations[..i + 1] == allocations[..i] + [allocations[i]];
  }

  lemma PreciseRecordsStep(allocations: seq<Declaration>, i: nat, base: int)
    requires i < |allocations| && allocations[i].precise && |PreciseTypes(allocations[..i])| == i
    ensures |PreciseTypes(allocations[..i + 1])| == i + 1
    ensures Records(PreciseTypes(allocations[..i + 1]), [], base) ==
            Records(PreciseTypes(allocations[..i]), [], base)
            + [SiteRecord(base + i + 1, i + 1, allocations[i].typeName, false)]
  {
    PreciseStep(allocations, i);
    RecordsStep(PreciseTypes(allocations[..i]), [], base, allocations[i].typeName);
  }

  method PreciseRecords(allocations: seq<Declaration>, base: int, importStem: string)
    returns (r: Result<seq<SiteRecord>, Error>)
    ensures r.Ok? <==> Numberable(allocations, [], base, importStem)
    ensures r.Ok? ==> r.value == Records(PreciseTypes(allocations), [], base)
    ensures r.Err? ==> SiteErrorJustified(r.error, allocations, [], base, importStem)
  {
    var records: seq<SiteRecord> := [];
    for i := 0 to |allocations|
      invariant Numberable(allocations[..i], [], base, importStem)
      invariant |PreciseTypes(allocations[..i])| == i
      invariant records == Records(PreciseTypes(allocations[..i]), [], base)
    {
      if !allocations[i].precise {
        return Err(ImpreciseSite);
      }
      var next := NextRecord(base, i + 1, importStem, allocations[i].typeName, false);
      if next.Err? {
        return Err(next.error);
      }
      NumberableStep(allocations, i, base, importStem);
      PreciseRecordsStep(allocations, i, base);
      records := records + [next.value];
    }
    assert allocations[..|allocations|] == allocations;
    return Ok(records);
  }

  /** `site_records` of the wasm generator; `importStem` is the namespace in import names. */
  method SiteRecords(allocations: seq<Declaration>, helpers: seq<Helper>, base: int, importStem: string)
    returns (r: Result<seq<SiteRecord>, Error>)
    ensures r.Ok? <==> Numberable(allocations, helpers, base, importStem)
    ensures r.Ok? ==> r.value == Records(PreciseTypes(allocations), HelperTypes(helpers), base)
    ensures r.Err? ==> SiteErrorJustified(r.error, allocations, helpers, base, importStem)
  {
    var precise := PreciseRecords(allocations, base, importStem);
    if precise.Err? {
      return precise;
    }
    AllPrecise(allocations);
    var records := precise.value;
    var seen: set<Name> := {};
    for i := 0 to |helpers|
      invariant Numberable(allocations, helpers[..i], base, importStem) && NamesSeen(seen, helpers, i)
      invariant records == Records(PreciseTypes(allocations), HelperTypes(helpers[..i]), base)
    {
      NameSeen(seen, helpers, i);
      if helpers[i].name in seen {
        return Err(DuplicateHelper(helpers[i].name));
      }
      seen := seen + {helpers[i].name};
      var next := NextRecord(base, |allocations| + i + 1, importStem, helpers[i].typeName, true);
      if next.Err? {
        return Err(next.error);
      }
      HelperStep(PreciseTypes(allocations), helpers, base, i);
      records := records + [next.value];
    }
    assert helpers[..|helpers|] == helpers;
    return Ok(records);
  }
}
