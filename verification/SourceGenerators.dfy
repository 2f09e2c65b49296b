/** The generators as a whole: numbered tables, and the instrumented source beside them. */
module SourceGenerators {
  import opened Machine
  import opened Results
  import opened TypeHash
  import opened PolicyTables
  import opened PolicyGenerators
  import opened Names
  import opened Instrumenter
  import opened SimultaneousEdits
  import opened SiteOrder
  import opened Noinline
  import SourceText

  /** Why a generator refuses its input. */
  datatype Failure = InPolicy(policyError: Error) | InSource(sourceError: SourceText.Error)

  function PlacedSite(d: Declaration, template: Template): Site
    requires d.precise
  {
    Site(d.function_, d.place.value.startLine, d.place.value.startColumn,
         d.place.value.endLine, d.place.value.endColumn, template)
  }

  // ----- the wasm generator

  /** The sites of a wasm policy, allocation `i` calling the allocator numbered `i + 1`. */
  function WasmSites(allocations: seq<Declaration>, stem: string): seq<Site>
    requires forall i :: 0 <= i < |allocations| ==> allocations[i].precise
  {
    seq(|allocations|, i requires 0 <= i < |allocations| =>
      PlacedSite(allocations[i], Wasm(SiteName(stem, i + 1))))
  }

  method NumberedWasmSites(allocations: seq<Declaration>, stem: string) returns (sites: seq<Site>)
    requires forall i :: 0 <= i < |allocations| ==> allocations[i].precise
    ensures sites == WasmSites(allocations, stem)
  {
    sites := [];
    for i := 0 to |allocations|
      invariant |sites| == i
      invariant forall j :: 0 <= j < i ==> sites[j] == PlacedSite(allocations[j], Wasm(SiteName(stem, j + 1)))
    {
      sites := sites + [PlacedSite(allocations[i], Wasm(SiteName(stem, i + 1)))];
    }
  }

  /** The source the wasm generator emits, or the error that stops it. */
  ghost function WasmSource(policy: Policy, namespace_: string, source: string): Result<string, SourceText.Error>
    requires forall i :: 0 <= i < |policy.allocations| ==> policy.allocations[i].precise
  {
    Fold(source, SortSites(WasmSites(policy.allocations, CStem(namespace_))))
  }

  /**
   * `generate_wasm_boundary`: it succeeds exactly when the policy is accepted and every site can be
   * instrumented in turn, and emits the instrumented source with the policy's tables.
   */
  method GenerateWasm(policy: Policy, boundary: Boundary, base: int, namespace_: string, source: string)
    returns (r: Result<(string, Tables), Failure>)
    ensures r.Ok? <==>
            WasmAccepts(policy, boundary, base, Cpp(namespace_)) && WasmSource(policy, namespace_, source).Ok?
    ensures r.Ok? ==>
              r.value == (WasmSource(policy, namespace_, source).value, TablesOf(policy, boundary, base))
    ensures r.Err? && r.error.InPolicy? ==>
              var types := Composed(policy.types, boundary.types);
              || RecordsErrorJustified(r.error.policyError, policy, boundary, types, base, Cpp(namespace_))
              || HeaderErrorJustified(r.error.policyError, types, FixedUses(policy.uses))
    ensures r.Err? && r.error.InSource? ==>
              WasmNumbers(policy, boundary, base, Cpp(namespace_))
              && WasmSource(policy, namespace_, source) == Err(r.error.sourceError)
  {
    var records := WasmRecords(policy, boundary, base, Cpp(namespace_));
    if records.Err? {
      return Err(InPolicy(records.error));
    }
    var (types, sites) := records.value;
    var placed := NumberedWasmSites(policy.allocations, CStem(namespace_));
    var instrumented := InstrumentAll(source, SortSites(placed));
    if instrumented.Err? {
      return Err(InSource(instrumented.error));
    }
    var header := WasmHeader(types, policy.uses);
    if header.Err? {
      return Err(InPolicy(header.error));
    }
    return Ok((instrumented.value, Tables(header.value.0, sites, header.value.1)));
  }

  // ----- the native generator

  function NativeTemplate(d: Declaration, siteId: nat): Template {
    Native(LabelName(Symbol(d.function_), siteId, false), LabelName(Symbol(d.function_), siteId, true))
  }

  /** The precise sites of a native policy, each labelled with its function and its rank. */
  function NativeSites(allocations: seq<Declaration>): seq<Site> {
    if allocations == [] then []
    else
      var n := |allocations| - 1;
      NativeSites(allocations[..n])
      + (if allocations[n].precise then [PlacedSite(allocations[n], NativeTemplate(allocations[n], LocalId(allocations, n)))] else [])
  }

  method LabelledSites(allocations: seq<Declaration>, siteIds: map<nat, nat>) returns (sites: seq<Site>)
    requires RanksPrecise(siteIds, allocations, |allocations|)
    ensures sites == NativeSites(allocations)
  {
    sites := [];
    for i := 0 to |allocations|
      invariant sites == NativeSites(allocations[..i])
    {
      assert allocations[..i + 1][..i] == allocations[..i];
      if allocations[i].precise {
        sites := sites + [PlacedSite(allocations[i], NativeTemplate(allocations[i], siteIds[i]))];
      }
    }
    assert allocations[..|allocations|] == allocations;
  }

  /** How an allocation without a place is rewritten: outside this model. */
  type Rewriter = (string, Declaration) -> Result<string, SourceText.Error>

  function RewriteLegacy(source: string, allocations: seq<Declaration>, legacy: Rewriter): Result<string, SourceText.Error> {
    if allocations == [] then Ok(source)
    else
      var n := |allocations| - 1;
      var before :- RewriteLegacy(source, allocations[..n], legacy);
      if allocations[n].precise then Ok(before) else legacy(before, allocations[n])
  }

  /** Sites, then attributes of their functions, then allocations without a place. */
  ghost function NativeSource(policy: Policy, source: string, legacy: Rewriter): Result<string, SourceText.Error> {
    var instrumented :- Fold(source, SortSites(NativeSites(policy.allocations)));
    var marked :- MarkAll(instrumented, FunctionNames(policy.allocations));
    RewriteLegacy(marked, policy.allocations, legacy)
  }

  /** The functions of the precise allocations, each once and in order. */
  function FunctionNames(allocations: seq<Declaration>): seq<string> {
    SortedNames(PreciseFunctions(allocations))
  }

  function PreciseFunctions(allocations: seq<Declaration>): seq<string> {
    if allocations == [] then []
    else
      var n := |allocations| - 1;
      PreciseFunctions(allocations[..n]) + (if allocations[n].precise then [allocations[n].function_] else [])
  }

  method RewriteAll(source: string, allocations: seq<Declaration>, legacy: Rewriter)
    returns (r: Result<string, SourceText.Error>)
    ensures r == RewriteLegacy(source, allocations, legacy)
  {
    var text := source;
    for i := 0 to |allocations|
      invariant RewriteLegacy(source, allocations[..i], legacy) == Ok(text)
    {
      assert allocations[..i + 1][..i] == allocations[..i];
      if !allocations[i].precise {
        var next := legacy(text, allocations[i]);
        if next.Err? {
          RewriteErrorStays(source, allocations, legacy, i + 1);
          return next;
        }
        text := next.value;
      }
    }
    assert allocations[..|allocations|] == allocations;
    return Ok(text);
  }

  lemma {:induction false} RewriteErrorStays(source: string, allocations: seq<Declaration>, legacy: Rewriter, n: nat)
    requires n <= |allocations| && RewriteLegacy(source, allocations[..n], legacy).Err?
    ensures RewriteLegacy(source, allocations, legacy) == RewriteLegacy(source, allocations[..n], legacy)
    decreases |allocations|
  {
    if n < |allocations| {
      assert allocations[..|allocations| - 1][..n] == allocations[..n];
      RewriteErrorStays(source, allocations[..|allocations| - 1], legacy, n);
    } else {
      assert allocations[..n] == allocations;
    }
  }

  method NativeText(policy: Policy, source: string, siteIds: map<nat, nat>, legacy: Rewriter)
    returns (r: Result<string, SourceText.Error>)
    requires RanksPrecise(siteIds, policy.allocations, |policy.allocations|)
    ensures r == NativeSource(policy, source, legacy)
  {
    var sites := LabelledSites(policy.allocations, siteIds);
    var instrumented := InstrumentAll(source, SortSites(sites));
    if instrumented.Err? {
      return instrumented;
    }
    var marked := MarkFunctions(instrumented.value, FunctionNames(policy.allocations));
    if marked.Err? {
      return marked;
    }
    r := RewriteAll(marked.value, policy.allocations, legacy);
  }

  /**
   * `generate`: it succeeds exactly when types and allocations can be numbered, the source can be
   * instrumented and the uses are in order.  A dynamic use keeps the length it declares here.
   */
  method GenerateNative(policy: Policy, source: string, legacy: Rewriter) returns (r: Result<(string, Tables), Failure>)
    ensures r.Ok? <==>
            NativeNumbers(policy, policy.types) && NativeSource(policy, source, legacy).Ok?
            && UsesOk(policy.uses, policy.types)
    ensures r.Ok? ==>
              r.value == (NativeSource(policy, source, legacy).value,
                          Tables(Numbered(policy.types), Records(PreciseTypes(policy.allocations), [], 0),
                                 UseEntries(policy.uses, policy.types)))
    ensures r.Err? && r.error.InPolicy? ==>
              Justified(r.error.policyError, policy, Boundary([], []), policy.types)
    ensures r.Err? && r.error.InSource? ==>
              NativeNumbers(policy, policy.types)
              && NativeSource(policy, source, legacy) == Err(r.error.sourceError)
  {
    var numbers := NativeIds(policy, policy.types);
    if numbers.Err? {
      return Err(InPolicy(numbers.error));
    }
    var (ids, siteIds) := numbers.value;
    var text := NativeText(policy, source, siteIds, legacy);
    if text.Err? {
      return Err(InSource(text.error));
    }
    var sites := SiteEntries(policy.allocations, siteIds);
    var uses := EmitUses(policy.uses, policy.types);
    if uses.Err? {
      return Err(InPolicy(uses.error));
    }
    return Ok((text.value, Tables(ids, sites, uses.value)));
  }

  /** `generate_boundary`: the prepared policy is generated, then helper sites are added. */
  method GenerateBoundary(policy: Policy, boundary: Boundary, source: string, legacy: Rewriter)
    returns (r: Result<(string, Tables), Failure>)
    ensures r.Ok? <==> NativeAccepts(policy, boundary) && NativeSource(policy, source, legacy).Ok?
    ensures r.Ok? ==> r.value == (NativeSource(policy, source, legacy).value, TablesOf(policy, boundary, 0))
    ensures r.Err? && r.error.InPolicy? ==>
              Justified(r.error.policyError, policy, boundary, Composed(policy.types, boundary.types))
    ensures r.Err? && r.error.InSource? ==>
              NativeSource(policy, source, legacy) == Err(r.error.sourceError)
  {
    var types := PreparePolicy(policy.types, boundary.types);
    if types.Err? {
      return Err(InPolicy(types.error));
    }
    var uses := PrepareUses(policy.uses);
    if uses.Err? {
      return Err(InPolicy(uses.error));
    }
    FixedIsSame(policy.uses);
    var generated := GenerateNative(policy.(types := types.value, uses := uses.value), source, legacy);
    if generated.Err? {
      return generated;
    }
    var helpers := HelperEntries(PreciseTypes(policy.allocations), boundary.helpers, types.value);
    if helpers.Err? {
      return Err(InPolicy(helpers.error));
    }
    var (text, tables) := generated.value;
    return Ok((text, tables.(sites := tables.sites + helpers.value)));
  }

  lemma FixedIsSame(uses: seq<Use>)
    requires NoFixedDynamic(uses)
    ensures FixedUses(uses) == uses
  {
  }
}
