/** The text the generators put in place of each allocation, and the site it leads to. */
module GeneratedSource {
  import opened Machine
  import opened Results
  import opened PolicyTables
  import opened PolicyGenerators
  import opened Names
  import opened Instrumenter
  import opened SimultaneousEdits
  import opened EditedText
  import opened SiteOrder
  import opened SourceGenerators
  import opened PolicyGuarantees
  import opened Noinline
  import opened FunctionMarks
  import opened FunctionBodies
  import opened SourceText
  import opened Texts

  // ----- the wasm generator

  /** A call of an allocator with a size expression. */
  function WasmCall(allocator: string, size: string): string {
    "(void*)(uintptr_t)" + allocator + "((uint32_t)(" + size + "))"
  }

  /** The edits of all sites on the original source, none of which meet. */
  ghost predicate PlannedApart(source: string, sites: seq<Site>, es: seq<Edit>) {
    && |es| == |sites| && Apart(es)
    && forall i :: 0 <= i < |sites| ==> Plan(source, sites[i]) == Ok(es[i])
  }

  /**
   * When every site of an accepted policy can be instrumented on the original source and no two of
   * the calls meet, the emitted source is the original with all of them replaced at once.
   */
  lemma WasmSourceIsReplaced(
      policy: Policy, boundary: Boundary, base: int, namespace_: string, source: string, es: seq<Edit>)
    returns (fs: seq<Edit>)
    requires WasmAccepts(policy, boundary, base, Cpp(namespace_))
    requires PlannedApart(source, WasmSites(policy.allocations, CStem(namespace_)), es)
    ensures forall f :: f in fs <==> f in es
    ensures Separate(source, 0, fs)
    ensures WasmSource(policy, namespace_, source) == Ok(Replaced(source, 0, fs))
  {
    var sites := WasmSites(policy.allocations, CStem(namespace_));
    forall i | 0 <= i < |sites|
      ensures sites[i].template.Named()
    {
      SiteNameIsIdentifier(CStem(namespace_), i + 1);
    }
    fs := SortedFoldIsSimultaneous(source, sites, es);
  }

  /**
   * The text put in place of allocation `i` calls the allocator of exactly one site of the emitted
   * table: the one numbered `base + i + 1`, with the type declared for the allocation.
   */
  lemma WasmEditCallsOneSite(
      policy: Policy, boundary: Boundary, base: int, namespace_: string, source: string, i: nat)
    requires WasmAccepts(policy, boundary, base, Cpp(namespace_)) && i < |policy.allocations|
    requires Plan(source, WasmSites(policy.allocations, CStem(namespace_))[i]).Ok?
    ensures var site := WasmSites(policy.allocations, CStem(namespace_))[i];
            Plan(source, site).value.text
            == WasmCall(SiteName(CStem(namespace_), i + 1), SizeExpression(source, site))
    ensures var records := TablesOf(policy, boundary, base).sites;
            && i < |records|
            && records[i].siteId == base + i + 1 && records[i].typeName == policy.allocations[i].typeName
            && forall k :: 0 <= k < |records| ==>
              (SiteName(CStem(namespace_), records[k].localId) == SiteName(CStem(namespace_), i + 1) <==> k == i)
  {
    CallNamesOneSite(policy, boundary, base, Cpp(namespace_), CStem(namespace_), i);
    var site := WasmSites(policy.allocations, CStem(namespace_))[i];
    EditText(source, site);
    WasmText(SiteName(CStem(namespace_), i + 1), SizeExpression(source, site));
  }

  lemma EditText(source: string, site: Site)
    requires Plan(source, site).Ok?
    ensures Plan(source, site).value.text
            == site.template.Before() + SizeExpression(source, site) + site.template.After()
  {
    var call, body, end := PlanAccepts(source, site);
  }

  lemma WasmText(allocator: string, size: string)
    ensures Wasm(allocator).Before() + size + Wasm(allocator).After() == WasmCall(allocator, size)
  {
    assert Paren("void*") == "(void*)" && Paren("uintptr_t") == "(uintptr_t)" && Paren("uint32_t") == "(uint32_t)";
    assert "(" + ("(uint32_t)" + "(") == "((uint32_t)(";
    assert "(void*)" + ("(uintptr_t)" + (allocator + "((uint32_t)("))
        == "(void*)(uintptr_t)" + allocator + "((uint32_t)(";
  }

  // ----- the native generator

  /** The labelled allocation of a native site. */
  function NativeExpression(begin: string, end: string, size: string): string {
    "({ uint32_t __interspec_size = (uint32_t)(" + size + "); uint32_t __interspec_ptr = 0; "
    + LabelStatement(begin) + "__interspec_ptr = INTERSPEC_SITE_ALLOC(__interspec_size); "
    + LabelStatement(end) + "(void*)(uintptr_t)__interspec_ptr; })"
  }

  /** Precise allocation `i` is the native site of its rank. */
  lemma {:induction false} NativeSiteAt(allocations: seq<Declaration>, i: nat)
    requires i < |allocations| && allocations[i].precise
    ensures var id := LocalId(allocations, i);
            && id <= |NativeSites(allocations)|
            && NativeSites(allocations)[id - 1] == PlacedSite(allocations[i], NativeTemplate(allocations[i], id))
    decreases |allocations|
  {
    var n := |allocations| - 1;
    NativeSiteCount(allocations[..n]);
    if i < n {
      assert allocations[..n][..i] == allocations[..i];
      NativeSiteAt(allocations[..n], i);
    }
  }

  lemma {:induction false} NativeSiteCount(allocations: seq<Declaration>)
    ensures |NativeSites(allocations)| == |PreciseTypes(allocations)|
  {
    if allocations != [] {
      NativeSiteCount(allocations[..|allocations| - 1]);
    }
  }

  lemma {:induction false} NativeSitesNamed(allocations: seq<Declaration>)
    ensures forall k :: 0 <= k < |NativeSites(allocations)| ==> NativeSites(allocations)[k].template.Named()
  {
    if allocations != [] {
      var n := |allocations| - 1;
      NativeSitesNamed(allocations[..n]);
      LabelIsIdentifier(Symbol(allocations[n].function_), LocalId(allocations, n), false);
      LabelIsIdentifier(Symbol(allocations[n].function_), LocalId(allocations, n), true);
    }
  }

  /** As for the wasm generator, before attributes are added and other allocations rewritten. */
  lemma NativeSitesAreReplaced(allocations: seq<Declaration>, source: string, es: seq<Edit>)
    returns (fs: seq<Edit>)
    requires PlannedApart(source, NativeSites(allocations), es)
    ensures forall f :: f in fs <==> f in es
    ensures Separate(source, 0, fs)
    ensures Fold(source, SortSites(NativeSites(allocations))) == Ok(Replaced(source, 0, fs))
  {
    NativeSitesNamed(allocations);
    fs := SortedFoldIsSimultaneous(source, NativeSites(allocations), es);
  }

  // ----- the whole native source

  /** Rewriting each allocation in turn. */
  function Rewritten(source: string, allocations: seq<Declaration>, legacy: Rewriter): Result<string, SourceText.Error> {
    if allocations == [] then Ok(source)
    else
      var n := |allocations| - 1;
      var before :- Rewritten(source, allocations[..n], legacy);
      legacy(before, allocations[n])
  }

  /** The allocations without a place, in order. */
  function Imprecise(allocations: seq<Declaration>): seq<Declaration> {
    if allocations == [] then []
    else
      var n := |allocations| - 1;
      Imprecise(allocations[..n]) + (if allocations[n].precise then [] else [allocations[n]])
  }

  lemma {:induction false} ImpreciseParts(a: seq<Declaration>, b: seq<Declaration>)
    ensures Imprecise(a + b) == Imprecise(a) + Imprecise(b)
    decreases |b|
  {
    if b == [] {
      assert a + b == a;
    } else {
      var n := |b| - 1;
      assert (a + b)[..|a + b| - 1] == a + b[..n];
      ImpreciseParts(a, b[..n]);
    }
  }

  /** No allocation is left out of the rest exactly when it has no place. */
  lemma {:induction false} ImpreciseMeans(allocations: seq<Declaration>)
    ensures forall d :: d in Imprecise(allocations) <==> d in allocations && !d.precise
    ensures Imprecise(allocations) == [] <==> forall i :: 0 <= i < |allocations| ==> allocations[i].precise
  {
    if allocations != [] {
      var n := |allocations| - 1;
      ImpreciseMeans(allocations[..n]);
      SplitLast(allocations);
    }
  }

  lemma {:induction false} LegacyIsRewritten(source: string, allocations: seq<Declaration>, legacy: Rewriter)
    ensures RewriteLegacy(source, allocations, legacy) == Rewritten(source, Imprecise(allocations), legacy)
  {
    if allocations != [] {
      var n := |allocations| - 1;
      LegacyIsRewritten(source, allocations[..n], legacy);
      var front := Imprecise(allocations[..n]);
      if allocations[n].precise {
        assert front + [] == front;
      } else {
        assert (front + [allocations[n]])[..|front|] == front;
      }
    }
  }

  /** The functions to be marked are those of the precise allocations, each once. */
  lemma {:induction false} FunctionsToMark(allocations: seq<Declaration>)
    ensures forall f :: f in FunctionNames(allocations) <==>
                        exists i :: 0 <= i < |allocations| && allocations[i].precise && allocations[i].function_ == f
    ensures Ascending(FunctionNames(allocations))
  {
    NamesSorted(PreciseFunctions(allocations));
    FunctionsOf(allocations);
  }

  lemma {:induction false} FunctionsOf(allocations: seq<Declaration>)
    ensures forall f :: f in PreciseFunctions(allocations) <==>
                        exists i :: 0 <= i < |allocations| && allocations[i].precise && allocations[i].function_ == f
  {
    if allocations != [] {
      var n := |allocations| - 1;
      FunctionsOf(allocations[..n]);
      forall f
        ensures (exists i :: 0 <= i < |allocations| && allocations[i].precise && allocations[i].function_ == f) <==>
                f in PreciseFunctions(allocations[..n]) || (allocations[n].precise && allocations[n].function_ == f)
      {
        if i :| 0 <= i < |allocations| && allocations[i].precise && allocations[i].function_ == f {
          assert i < n ==> allocations[..n][i] == allocations[i];
        }
      }
    }
  }

  /**
   * When every precise allocation can be instrumented on the original source and no two of their
   * calls meet, the native source is the original with all of them replaced at once, then the
   * marks on their functions, then the allocations without a place in turn.
   */
  lemma NativeSourceIsReplaced(policy: Policy, source: string, legacy: Rewriter, es: seq<Edit>)
    returns (fs: seq<Edit>)
    requires PlannedApart(source, NativeSites(policy.allocations), es)
    ensures forall f :: f in fs <==> f in es
    ensures Separate(source, 0, fs)
    ensures var marked := MarkAll(Replaced(source, 0, fs), FunctionNames(policy.allocations));
            && (marked.Err? ==> NativeSource(policy, source, legacy) == marked)
            && (marked.Ok? ==> NativeSource(policy, source, legacy) ==
                               Rewritten(marked.value, Imprecise(policy.allocations), legacy))
            && ((forall i :: 0 <= i < |policy.allocations| ==> policy.allocations[i].precise) ==>
                  NativeSource(policy, source, legacy) == marked)
  {
    fs := NativeSitesAreReplaced(policy.allocations, source, es);
    var marked := MarkAll(Replaced(source, 0, fs), FunctionNames(policy.allocations));
    if marked.Ok? {
      LegacyIsRewritten(marked.value, policy.allocations, legacy);
    }
    ImpreciseMeans(policy.allocations);
  }

  /** Every function of a precise allocation bears the mark. */
  ghost predicate FunctionsMarked(text: string, allocations: seq<Declaration>) {
    forall i :: 0 <= i < |allocations| && allocations[i].precise ==> IsMarked(text, allocations[i].function_)
  }

  /**
   * When no head of one of those functions starts inside that of another in the instrumented text,
   * all of them are marked, before the allocations without a place are rewritten.
   */
  lemma NativeFunctionsMarked(policy: Policy, source: string, legacy: Rewriter, es: seq<Edit>)
    returns (fs: seq<Edit>, marked: string)
    requires PlannedApart(source, NativeSites(policy.allocations), es)
    requires forall i :: 0 <= i < |policy.allocations| && policy.allocations[i].precise ==>
               IsName(policy.allocations[i].function_)
    ensures forall f :: f in fs <==> f in es
    ensures Separate(source, 0, fs)
    ensures HeadsApart(Replaced(source, 0, fs), FunctionNames(policy.allocations)) ==>
              && FunctionsMarked(marked, policy.allocations)
              && NativeSource(policy, source, legacy) == Rewritten(marked, Imprecise(policy.allocations), legacy)
  {
    fs := NativeSourceIsReplaced(policy, source, legacy, es);
    marked := "";
    FunctionsToMark(policy.allocations);
    var text, names := Replaced(source, 0, fs), FunctionNames(policy.allocations);
    if HeadsApart(text, names) {
      marked := EveryFunctionMarked(text, names, names);
    }
  }

  /** With one head for each function, that is exactly when all are marked in the end. */
  lemma NativeMarksExactly(policy: Policy, source: string, legacy: Rewriter, es: seq<Edit>)
    returns (fs: seq<Edit>)
    requires PlannedApart(source, NativeSites(policy.allocations), es)
    requires forall i :: 0 <= i < |policy.allocations| ==>
               policy.allocations[i].precise && IsName(policy.allocations[i].function_)
    ensures forall f :: f in fs <==> f in es
    ensures Separate(source, 0, fs)
    ensures (forall f :: f in FunctionNames(policy.allocations) ==> OneHead(Replaced(source, 0, fs), f)) ==>
              (HeadsApart(Replaced(source, 0, fs), FunctionNames(policy.allocations)) <==>
               NativeSource(policy, source, legacy).Ok?
               && FunctionsMarked(NativeSource(policy, source, legacy).value, policy.allocations))
  {
    fs := NativeSourceIsReplaced(policy, source, legacy, es);
    FunctionsToMark(policy.allocations);
    var text, names := Replaced(source, 0, fs), FunctionNames(policy.allocations);
    if forall f :: f in names ==> OneHead(text, f) {
      MarksEveryFunction(text, names);
      if MarkAll(text, names).Ok? {
        NamesOrAllocations(MarkAll(text, names).value, policy.allocations);
      }
    }
  }

  lemma NamesOrAllocations(text: string, allocations: seq<Declaration>)
    ensures AllMarked(text, FunctionNames(allocations)) <==> FunctionsMarked(text, allocations)
  {
    FunctionsToMark(allocations);
  }

  // ----- where the edits are

  /**
   * The edit of an allocation is where the policy says: it starts at the visible character with
   * the declared line and column, where `malloc` stands, inside the body of the declared function.
   */
  lemma EditIsPlaced(source: string, d: Declaration, template: Template)
    requires d.precise && Plan(source, PlacedSite(d, template)).Ok?
    ensures var e, place := Plan(source, PlacedSite(d, template)).value, d.place.value;
            && Visible(source, e.start)
            && LocationOf(source, e.start) == Location(place.startLine, place.startColumn)
            && StartsWith(source, e.start, "malloc")
            && BodyOf(source, d.function_).Ok?
            && BodyOf(source, d.function_).value.0 <= e.start < e.end <= BodyOf(source, d.function_).value.1
    ensures var end := SourceOffset(source, d.place.value.endLine, d.place.value.endColumn, true);
            && end.Ok? && end.value <= BodyOf(source, d.function_).value.1
            && (template.Native? ==> Plan(source, PlacedSite(d, template)).value.start < end.value)
  {
    var site := PlacedSite(d, template);
    var call, body, end := PlanAccepts(source, site);
    PlanInRange(source, site);
    OffsetInvertsLocation(source, site.startLine, site.startColumn, Plan(source, site).value.start);
  }

  /** Precise allocation `i` as a site, with the labels of its rank. */
  function OwnSite(allocations: seq<Declaration>, i: nat): Site
    requires i < |allocations| && allocations[i].precise
  {
    PlacedSite(allocations[i], NativeTemplate(allocations[i], LocalId(allocations, i)))
  }

  /** The text put in place of precise allocation `i` is an allocation between the labels of its rank. */
  lemma NativeEditIsLabelled(allocations: seq<Declaration>, source: string, i: nat)
    requires i < |allocations| && allocations[i].precise && Plan(source, OwnSite(allocations, i)).Ok?
    ensures var id := LocalId(allocations, i);
            id <= |NativeSites(allocations)| && NativeSites(allocations)[id - 1] == OwnSite(allocations, i)
    ensures var stem, id := Symbol(allocations[i].function_), LocalId(allocations, i);
            Plan(source, OwnSite(allocations, i)).value.text
            == NativeExpression(LabelName(stem, id, false), LabelName(stem, id, true),
                                SizeExpression(source, OwnSite(allocations, i)))
  {
    NativeSiteAt(allocations, i);
    var site := OwnSite(allocations, i);
    EditText(source, site);
    NativeText(site.template.beginLabel, site.template.endLabel, SizeExpression(source, site));
  }

  /**
   * Those labels belong to one site of the emitted table, with the type declared for the
   * allocation: no label of another number, whatever its function or helper, is one of them.
   */
  lemma LabelsMeanOneSite(
      policy: Policy, boundary: Boundary, i: nat, stem: string, id: nat, isEnd: bool)
    requires NativeAccepts(policy, boundary) && i < |policy.allocations| && policy.allocations[i].precise
    ensures var records, own := TablesOf(policy, boundary, 0).sites, LocalId(policy.allocations, i);
            && own <= |records|
            && records[own - 1] == SiteRecord(own, own, policy.allocations[i].typeName, false)
            && forall k :: 0 <= k < |records| && records[k].siteId == own ==> k == own - 1
    ensures var d, own := policy.allocations[i], LocalId(policy.allocations, i);
            id != own ==>
              LabelName(stem, id, isEnd) != LabelName(Symbol(d.function_), own, false)
              && LabelName(stem, id, isEnd) != LabelName(Symbol(d.function_), own, true)
  {
    SiteOfAllocation(policy.allocations, HelperTypes(boundary.helpers), 0, i);
    LabelsOf(stem, id, isEnd, Symbol(policy.allocations[i].function_), LocalId(policy.allocations, i));
  }

  lemma LabelsOf(stem: string, id: nat, isEnd: bool, own: string, siteId: nat)
    ensures id != siteId ==>
              LabelName(stem, id, isEnd) != LabelName(own, siteId, false)
              && LabelName(stem, id, isEnd) != LabelName(own, siteId, true)
  {
    if LabelName(stem, id, isEnd) == LabelName(own, siteId, false) {
      LabelsDiffer(stem, id, isEnd, own, siteId, false);
    }
    if LabelName(stem, id, isEnd) == LabelName(own, siteId, true) {
      LabelsDiffer(stem, id, isEnd, own, siteId, true);
    }
  }

  /** The statement that exports a label: a global function symbol, defined in place. */
  lemma LabelText(name: string)
    ensures LabelStatement(name) ==
            "__asm__ __volatile__(\".globl " + name + "\\n.type " + name + ",@function\\n" + name
            + ":\" ::: \"memory\"); "
  {
    assert Literal("memory") == "\"memory\"" && Literal(LabelAsm(name)) == "\"" + (LabelAsm(name) + "\"");
    assert " ::: " + "\"memory\"" == " ::: \"memory\"";
    assert "__asm__ __volatile__" + ("(" + ("\"" + ".globl ")) == "__asm__ __volatile__(\".globl ";
    assert ":" + ("\"" + (" ::: \"memory\"" + (")" + "; "))) == ":\" ::: \"memory\"); ";
    FlattenLabel("__asm__ __volatile__", "(", "\"", ".globl ", name, "\\n.type ", ",@function\\n", ":", " ::: \"memory\"", ")", "; ");
  }

  lemma FlattenLabel(
      a: string, p: string, q: string, g: string, n: string, t: string, f: string, c: string, m: string, r: string, z: string)
    ensures a + ((p + ((q + ((g + (n + (t + (n + (f + (n + c)))))) + q)) + m) + r) + z)
         == (a + (p + (q + g))) + n + t + n + f + n + (c + (q + (m + (r + z))))
  {
  }

  lemma NativeText(begin: string, end: string, size: string)
    ensures Native(begin, end).Before() + size + Native(begin, end).After() == NativeExpression(begin, end, size)
  {
    BeforeText();
    AfterText(begin, end);
    var b, e := LabelStatement(begin), LabelStatement(end);
    Flatten("({ uint32_t __interspec_size = (uint32_t)(", size, "); uint32_t __interspec_ptr = 0; ", b,
            "__interspec_ptr = INTERSPEC_SITE_ALLOC(__interspec_size); ", e, "(void*)(uintptr_t)__interspec_ptr; })");
  }

  lemma BeforeText()
    ensures "(" + ("{" + (" uint32_t __interspec_size = " + (Paren("uint32_t") + "("))) ==
            "({ uint32_t __interspec_size = (uint32_t)("
  {
    assert Paren("uint32_t") + "(" == "(uint32_t)(";
    Regroup3("(", "{", " uint32_t __interspec_size = " + "(uint32_t)(");
    Regroup3("({", " uint32_t __interspec_size = ", "(uint32_t)(");
    assert "(" + "{" == "({";
    DeclarationText();
  }

  lemma DeclarationText()
    ensures "({" + " uint32_t __interspec_size = " + "(uint32_t)(" == "({ uint32_t __interspec_size = (uint32_t)("
  {
    assert "({" + " uint32_t __interspec_size = " == "({ uint32_t __interspec_size = ";
  }

  lemma AfterText(begin: string, end: string)
    ensures Native(begin, end).After() ==
            "); uint32_t __interspec_ptr = 0; "
            + (LabelStatement(begin)
               + ("__interspec_ptr = INTERSPEC_SITE_ALLOC(__interspec_size); "
                  + (LabelStatement(end) + "(void*)(uintptr_t)__interspec_ptr; })")))
  {
    SiteCallText(end);
    Regroup4("; uint32_t __interspec_ptr = 0; ", LabelStatement(begin), SiteCall(end), "}" + ")");
    CloseText(LabelStatement(begin) + (SiteCall(end) + ("}" + ")")));
  }

  lemma CloseText(rest: string)
    ensures ")" + ("; uint32_t __interspec_ptr = 0; " + rest) == "); uint32_t __interspec_ptr = 0; " + rest
  {
    assert ")" + "; uint32_t __interspec_ptr = 0; " == "); uint32_t __interspec_ptr = 0; ";
    Regroup3(")", "; uint32_t __interspec_ptr = 0; ", rest);
  }

  lemma SiteCallText(end: string)
    ensures SiteCall(end) + ("}" + ")") ==
            "__interspec_ptr = INTERSPEC_SITE_ALLOC(__interspec_size); "
            + (LabelStatement(end) + "(void*)(uintptr_t)__interspec_ptr; })")
  {
    ResultText();
    Regroup5("__interspec_ptr = INTERSPEC_SITE_ALLOC", Paren("__interspec_size"), "; ", LabelStatement(end),
             ResultValue(), "}" + ")");
    assert "__interspec_ptr = INTERSPEC_SITE_ALLOC" + (Paren("__interspec_size") + "; ")
        == "__interspec_ptr = INTERSPEC_SITE_ALLOC(__interspec_size); ";
  }

  lemma ResultText()
    ensures ResultValue() + ("}" + ")") == "(void*)(uintptr_t)__interspec_ptr; })"
  {
    assert Paren("void*") == "(void*)" && Paren("uintptr_t") == "(uintptr_t)";
  }

  lemma Regroup3(a: string, b: string, c: string)
    ensures a + (b + c) == (a + b) + c
  {
  }

  lemma Regroup4(a: string, b: string, c: string, d: string)
    ensures (a + (b + c)) + d == a + (b + (c + d))
  {
  }

  lemma Regroup5(a: string, p: string, q: string, l: string, r: string, z: string)
    ensures (a + (p + (q + (l + r)))) + z == (a + (p + q)) + (l + (r + z))
  {
  }

  lemma Flatten(a: string, b: string, c: string, d: string, e: string, f: string, g: string)
    ensures a + b + (c + (d + (e + (f + g)))) == a + b + c + d + e + f + g
  {
  }
}
