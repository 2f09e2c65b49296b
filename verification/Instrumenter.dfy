/** Source instrumentation: each analysed `malloc` call is replaced by a call of its typed site. */
module Instrumenter {
  import opened Results
  import opened CLexer
  import opened SourceText
  import opened FunctionBodies
  import opened Names

  function Paren(t: string): string { "(" + t + ")" }

  function Literal(t: string): string { "\"" + t + "\"" }

  /** The replacement text around the size expression, by generator. */
  datatype Template =
    | Native(beginLabel: string, endLabel: string)
    | Wasm(allocator: string)
  {
    function Before(): string {
      match this
      case Native(_, _) => "(" + ("{" + (" uint32_t __interspec_size = " + (Paren("uint32_t") + "(")))
      case Wasm(allocator) => Paren("void*") + (Paren("uintptr_t") + (allocator + ("(" + (Paren("uint32_t") + "("))))
    }

    function After(): string {
      match this
      case Native(beginLabel, endLabel) => ")" + (NativeCall(beginLabel, endLabel) + ("}" + ")"))
      case Wasm(_) => ")" + ")"
    }

    /** The generated names are identifiers. */
    predicate Named() {
      match this
      case Native(beginLabel, endLabel) => IsIdentifier(beginLabel) && IsIdentifier(endLabel)
      case Wasm(allocator) => IsIdentifier(allocator)
    }
  }

  /** The labelled allocation of a native site, and the value of the whole. */
  function NativeCall(beginLabel: string, endLabel: string): string {
    "; uint32_t __interspec_ptr = 0; " + (LabelStatement(beginLabel) + SiteCall(endLabel))
  }

  function SiteCall(endLabel: string): string {
    "__interspec_ptr = INTERSPEC_SITE_ALLOC"
    + (Paren("__interspec_size") + ("; " + (LabelStatement(endLabel) + ResultValue())))
  }

  function ResultValue(): string {
    Paren("void*") + (Paren("uintptr_t") + "__interspec_ptr; ")
  }

  /** An assembler statement that exports `name` as a function label. */
  function LabelStatement(name: string): string {
    "__asm__ __volatile__" + (Paren(Literal(LabelAsm(name)) + (" ::: " + Literal("memory"))) + "; ")
  }

  function LabelAsm(name: string): string {
    ".globl " + (name + ("\\n.type " + (name + (",@function\\n" + (name + ":")))))
  }

  /** One analysed allocation: its function, its span, and how it is to be replaced. */
  datatype Site = Site(
    function_: string, startLine: int, startColumn: int, endLine: int, endColumn: int, template: Template)

  /** A complete `malloc` call, its argument list opening at `open`. */
  datatype Call = Call(start: nat, end: nat, open: nat, argument: string)

  /** `text` in place of `source[start..end]`. */
  datatype Edit = Edit(start: nat, end: nat, text: string)

  // ----- one site

  /** The text between two offsets, which Python cuts at the end of the source. */
  function Slice(source: string, lo: nat, hi: nat): string {
    if lo < hi && lo < |source| then source[lo..if hi < |source| then hi else |source|] else ""
  }

  /** Where the argument list of an anchored `malloc` opens. */
  function ListOpening(source: string, anchorStart: nat, anchorEnd: nat): (r: Result<nat, Error>)
    ensures r.Ok? ==>
              && StartsWith(source, anchorStart, "malloc") && anchorStart + 6 <= anchorEnd
              && r.value == SkipSpaces(source, anchorStart + 6) < |source| && source[r.value] == '('
  {
    if anchorEnd <= anchorStart || !StartsWith(source, anchorStart, "malloc") then Err(NotMalloc)
    else if anchorStart + |"malloc"| > anchorEnd then Err(TruncatedToken)
    else
      var open := SkipSpaces(source, anchorStart + |"malloc"|);
      if open == |source| || source[open] != '(' then Err(NoArgumentList) else Ok(open)
  }

  /** The call whose list opens at `open` and closes just before `e`. */
  function ClosedCall(source: string, anchorStart: nat, anchorEnd: nat, open: nat, e: nat): (r: Result<Call, Error>)
    requires open + 1 < e <= |source|
    ensures r.Ok? ==> r.value.argument == Strip(source[open + 1..e - 1])
  {
    var argument := Strip(source[open + 1..e - 1]);
    if argument == "" then Err(EmptyArgument)
    else if anchorEnd > e && Strip(Slice(source, e, anchorEnd)) != "" then Err(SpanPastCall)
    else Ok(Call(anchorStart, e, open, argument))
  }

  /** What `malloc_call_extent` is to return, by the lexical modes of the source. */
  ghost function CallExtent(source: string, anchorStart: nat, anchorEnd: nat): Result<Call, Error> {
    var open :- ListOpening(source, anchorStart, anchorEnd);
    var e := CloseAt(source, open);
    if e == 0 then Err(UnterminatedArguments)
    else
      ClosingIsParen(source, open, e);
      ClosedCall(source, anchorStart, anchorEnd, open, e)
  }

  method MallocCallExtent(source: string, anchorStart: nat, anchorEnd: nat) returns (r: Result<Call, Error>)
    ensures r == CallExtent(source, anchorStart, anchorEnd)
  {
    var open := ListOpening(source, anchorStart, anchorEnd);
    if open.Err? {
      return Err(open.error);
    }
    var e := CloseOf(source, open.value);
    if e == 0 {
      return Err(UnterminatedArguments);
    }
    ClosingIsParen(source, open.value, e);
    return ClosedCall(source, anchorStart, anchorEnd, open.value, e);
  }

  /** The edit that `instrument_site` performs, or why it refuses the site. */
  ghost function Plan(source: string, site: Site): Result<Edit, Error> {
    var start :- SourceOffset(source, site.startLine, site.startColumn, false);
    var end :- SourceOffset(source, site.endLine, site.endColumn, true);
    if site.template.Native? && end <= start then Err(InvalidSite)
    else
      var body :- BodyOf(source, site.function_);
      if start < body.0 || end > body.1 then Err(SiteEscapesFunction)
      else
        var call :- CallExtent(source, start, end);
        if call.end > body.1 then Err(CallEscapesFunction)
        else Ok(Edit(call.start, call.end, site.template.Before() + call.argument + site.template.After()))
  }

  function Apply(source: string, e: Edit): string
    requires e.start <= e.end <= |source|
  {
    source[..e.start] + e.text + source[e.end..]
  }

  ghost function Instrumented(source: string, site: Site): Result<string, Error> {
    match Plan(source, site)
    case Err(error) => Err(error)
    case Ok(e) =>
      PlanInRange(source, site);
      Ok(Apply(source, e))
  }

  /** What a site accepted on a source tells about it. */
  ghost predicate Accepted(source: string, site: Site, e: Edit, call: Call, body: (nat, nat), end: nat) {
    && SourceOffset(source, site.startLine, site.startColumn, false) == Ok(e.start)
    && SourceOffset(source, site.endLine, site.endColumn, true) == Ok(end)
    && BodyOf(source, site.function_) == Ok(body)
    && body.0 <= e.start && end <= body.1 && e.end <= body.1
    && (site.template.Native? ==> e.start < end)
    && CallExtent(source, e.start, end) == Ok(call)
    && call.start == e.start && call.end == e.end
    && e.text == site.template.Before() + call.argument + site.template.After()
  }

  lemma PlanAccepts(source: string, site: Site) returns (call: Call, body: (nat, nat), end: nat)
    requires Plan(source, site).Ok?
    ensures Accepted(source, site, Plan(source, site).value, call, body, end)
  {
    end := SourceOffset(source, site.endLine, site.endColumn, true).value;
    body := BodyOf(source, site.function_).value;
    var start := SourceOffset(source, site.startLine, site.startColumn, false).value;
    call := CallExtent(source, start, end).value;
    ExtentStartsAtAnchor(source, start, end);
  }

  lemma AcceptedPlans(source: string, site: Site, e: Edit, call: Call, body: (nat, nat), end: nat)
    requires Accepted(source, site, e, call, body, end)
    ensures Plan(source, site) == Ok(e)
  {
  }

  /** The parts of an accepted call: `malloc`, spaces, and a parenthesised argument. */
  ghost predicate IsCall(source: string, call: Call, anchorEnd: nat) {
    && ListOpening(source, call.start, anchorEnd) == Ok(call.open)
    && CloseAt(source, call.open) == call.end && call.open + 1 < call.end <= |source|
    && ClosedCall(source, call.start, anchorEnd, call.open, call.end) == Ok(call)
  }

  lemma ExtentStartsAtAnchor(source: string, anchorStart: nat, anchorEnd: nat)
    requires CallExtent(source, anchorStart, anchorEnd).Ok?
    ensures var call := CallExtent(source, anchorStart, anchorEnd).value;
            call.start == anchorStart && IsCall(source, call, anchorEnd)
  {
    var open := ListOpening(source, anchorStart, anchorEnd).value;
    ClosingIsParen(source, open, CloseAt(source, open));
  }

  lemma CallIsExtent(source: string, call: Call, anchorEnd: nat)
    requires IsCall(source, call, anchorEnd)
    ensures CallExtent(source, call.start, anchorEnd) == Ok(call)
  {
  }

  lemma PlanInRange(source: string, site: Site)
    requires Plan(source, site).Ok?
    ensures var e := Plan(source, site).value; e.start < e.end < |source|
    ensures var e := Plan(source, site).value; StartsWith(source, e.start, "malloc")
  {
    var call, body, end := PlanAccepts(source, site);
    ExtentStartsAtAnchor(source, call.start, end);
  }

  method InstrumentSite(source: string, site: Site) returns (r: Result<string, Error>)
    ensures r == Instrumented(source, site)
  {
    var start := SourceOffset(source, site.startLine, site.startColumn, false);
    if start.Err? {
      return Err(start.error);
    }
    var end := SourceOffset(source, site.endLine, site.endColumn, true);
    if end.Err? {
      return Err(end.error);
    }
    if site.template.Native? && end.value <= start.value {
      return Err(InvalidSite);
    }
    var body := FunctionBody(source, site.function_);
    if body.Err? {
      return Err(body.error);
    }
    if start.value < body.value.0 || end.value > body.value.1 {
      return Err(SiteEscapesFunction);
    }
    var call := MallocCallExtent(source, start.value, end.value);
    if call.Err? {
      return Err(call.error);
    }
    if call.value.end > body.value.1 {
      return Err(CallEscapesFunction);
    }
    PlanInRange(source, site);
    var replacement := site.template.Before() + call.value.argument + site.template.After();
    return Ok(source[..call.value.start] + replacement + source[call.value.end..]);
  }

  // ----- all sites, last one first

  ghost function Fold(source: string, sites: seq<Site>): Result<string, Error> {
    if sites == [] then Ok(source)
    else
      match Fold(source, sites[..|sites| - 1])
      case Err(error) => Err(error)
      case Ok(edited) => Instrumented(edited, sites[|sites| - 1])
  }

  /** The loop of `generate` over the precise sites in descending order of their start. */
  method InstrumentAll(source: string, sites: seq<Site>) returns (r: Result<string, Error>)
    ensures r == Fold(source, sites)
  {
    var edited := source;
    var i := 0;
    while i < |sites|
      invariant i <= |sites|
      invariant Fold(source, sites[..i]) == Ok(edited)
    {
      assert sites[..i + 1][..i] == sites[..i];
      var next := InstrumentSite(edited, sites[i]);
      if next.Err? {
        ErrorStays(source, sites, i + 1);
        return next;
      }
      edited := next.value;
      i := i + 1;
    }
    assert sites[..i] == sites;
    return Ok(edited);
  }

  lemma {:induction false} ErrorStays(source: string, sites: seq<Site>, n: nat)
    requires n <= |sites| && Fold(source, sites[..n]).Err?
    ensures Fold(source, sites) == Fold(source, sites[..n])
    decreases |sites|
  {
    if n < |sites| {
      assert sites[..|sites| - 1][..n] == sites[..n];
      ErrorStays(source, sites[..|sites| - 1], n);
    } else {
      assert sites[..n] == sites;
    }
  }
}
