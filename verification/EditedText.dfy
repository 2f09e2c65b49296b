/** What instrumentation leaves alone: every other character, and the lexical context around it. */
module EditedText {
  import opened Results
  import opened CLexer
  import opened SourceText
  import opened Instrumenter
  import opened Templates
  import opened SimultaneousEdits

  // ----- every other character

  /** No edit covers the character at `x`. */
  predicate Untouched(es: seq<Edit>, x: nat) {
    forall i :: 0 <= i < |es| ==> x < es[i].start || es[i].end <= x
  }

  /** Where the offset `x` of the source is found in `Replaced(source, from, es)`. */
  function NewOffset(source: string, from: nat, es: seq<Edit>, x: nat): (r: nat)
    requires Separate(source, from, es) && from <= x <= |source| && Untouched(es, x)
    ensures r <= |Replaced(source, from, es)|
    decreases |es|
  {
    if es == [] then x - from
    else
      var e, rest := es[|es| - 1], es[..|es| - 1];
      if x < e.start then x - from
      else e.start - from + |e.text| + NewOffset(source, e.end, rest, x)
  }

  lemma {:induction false} CharactersKept(source: string, from: nat, es: seq<Edit>, x: nat)
    requires Separate(source, from, es) && from <= x < |source| && Untouched(es, x)
    ensures NewOffset(source, from, es, x) < |Replaced(source, from, es)|
    ensures Replaced(source, from, es)[NewOffset(source, from, es, x)] == source[x]
    decreases |es|
  {
    if es == [] || x < es[|es| - 1].start {
      ReplacedPrefix(source, from, x + 1, es);
    } else {
      var e, rest := es[|es| - 1], es[..|es| - 1];
      CharactersKept(source, e.end, rest, x);
      BeyondTwo(source[from..e.start], e.text, Replaced(source, e.end, rest), NewOffset(source, e.end, rest, x));
    }
  }

  lemma BeyondTwo(a: string, b: string, c: string, n: nat)
    requires n < |c|
    ensures (a + (b + c))[|a| + |b| + n] == c[n]
  {
  }

  /**
   * Around each edit stands its text, between the replacement of what is before it and that of
   * what is behind it; without edits nothing changes.
   */
  lemma {:induction false} ReplacedAround(source: string, from: nat, late: seq<Edit>, e: Edit, early: seq<Edit>)
    requires Separate(source, from, late + [e] + early)
    ensures from <= e.start <= e.end <= |source|
    ensures Separate(source[..e.start], from, early) && Separate(source, e.end, late)
    ensures Replaced(source, from, late + [e] + early) ==
            Replaced(source[..e.start], from, early) + (e.text + Replaced(source, e.end, late))
    decreases |early|
  {
    SeparateAround(source, from, late, e, early);
    var tail := e.text + Replaced(source, e.end, late);
    if early == [] {
      OnlySource(source, e.start, from, early);
      assert (late + [e] + early)[..|late|] == late;
    } else {
      var n := |early| - 1;
      var f, rest := early[n], early[..n];
      FirstReplaced(source, from, late + [e], early);
      SeparateRest(source, from, late + [e], early);
      ReplacedAround(source, f.end, late, e, rest);
      ReplacedBefore(source, e.start, from, early);
      Nested(source[from..f.start], f.text, Replaced(source[..e.start], f.end, rest), tail);
    }
  }

  lemma SeparateAround(source: string, from: nat, late: seq<Edit>, e: Edit, early: seq<Edit>)
    requires Separate(source, from, late + [e] + early)
    ensures from <= e.start <= e.end <= |source|
    ensures Separate(source[..e.start], from, early) && Separate(source, e.end, late)
  {
    var all := late + [e] + early;
    assert all[|late|] == e;
    assert forall i :: 0 <= i < |late| ==> all[i] == late[i];
    assert forall i :: 0 <= i < |early| ==> all[|late| + 1 + i] == early[i];
  }

  lemma SeparateRest(source: string, from: nat, late: seq<Edit>, early: seq<Edit>)
    requires early != [] && Separate(source, from, late + early)
    ensures Separate(source, early[|early| - 1].end, late + early[..|early| - 1])
  {
    var all, n := late + early, |early| - 1;
    assert all[|all| - 1] == early[n] && all[..|all| - 1] == late + early[..n];
  }

  lemma FirstReplaced(source: string, from: nat, late: seq<Edit>, early: seq<Edit>)
    requires early != [] && Separate(source, from, late + early)
    ensures var f, rest := early[|early| - 1], late + early[..|early| - 1];
            && Separate(source, f.end, rest) && from <= f.start <= |source|
            && Replaced(source, from, late + early) == source[from..f.start] + (f.text + Replaced(source, f.end, rest))
  {
    SeparateRest(source, from, late, early);
    var all, n := late + early, |early| - 1;
    assert all[|all| - 1] == early[n] && all[..|all| - 1] == late + early[..n];
  }

  /** The first of the edits before `end`, on the text before `end`. */
  lemma ReplacedBefore(source: string, end: nat, from: nat, es: seq<Edit>)
    requires end <= |source| && Separate(source[..end], from, es) && es != []
    ensures var e, n := es[|es| - 1], |es| - 1;
            Replaced(source[..end], from, es)
            == source[from..e.start] + (e.text + Replaced(source[..end], e.end, es[..n]))
  {
    assert source[..end][from..es[|es| - 1].start] == source[from..es[|es| - 1].start];
  }

  lemma OnlySource(source: string, end: nat, from: nat, es: seq<Edit>)
    requires end <= |source| && Separate(source[..end], from, es) && es == []
    ensures Replaced(source[..end], from, es) == source[from..end]
  {
  }

  lemma Nested(a: string, b: string, c: string, d: string)
    ensures (a + (b + c)) + d == a + (b + (c + d))
  {
  }

  lemma NothingReplaced(source: string)
    ensures Replaced(source, 0, []) == source
  {
  }

  /** The kept characters keep their order. */
  lemma {:induction false} OrderKept(source: string, from: nat, es: seq<Edit>, x: nat, y: nat)
    requires Separate(source, from, es) && from <= x < y <= |source|
    requires Untouched(es, x) && Untouched(es, y)
    ensures NewOffset(source, from, es, x) < NewOffset(source, from, es, y)
    decreases |es|
  {
    if es != [] {
      var e, rest := es[|es| - 1], es[..|es| - 1];
      if x >= e.start {
        OrderKept(source, e.end, rest, x, y);
      }
    }
  }

  // ----- lexical modes of a call and of its replacement

  /** After a `/` that starts no comment the scan goes on as in code. */
  lemma {:induction false} SlashIsCode(s: Lex, t: string)
    requires s.mode == Code && t != "" && t[0] != '/' && t[0] != '*'
    ensures Scan(s.(mode := Slash), t) == Scan(s, t)
  {
    if |t| == 1 {
      assert t[..0] == "";
    } else {
      SlashIsCode(s, t[..|t| - 1]);
    }
  }

  /** In code, any state but for its depths, a text that is not a comment start scans alike. */
  lemma ScanInCode(s: Lex, t: string)
    requires s.InCode() && t != "" && t[0] != '/' && t[0] != '*'
    ensures var r := Scan(START, t); Scan(s, t) == Lex(r.mode, r.parens + s.parens, r.braces + s.braces)
  {
    if s.mode == Slash {
      SlashIsCode(s.(mode := Code), t);
    }
    ScanShift(START, t, s.parens, s.braces);
  }

  lemma {:induction false} SpacesInCode(s: Lex, t: string)
    requires s.InCode() && AllSpace(t)
    ensures Scan(s, t).InCode() && Scan(s, t).parens == s.parens && Scan(s, t).braces == s.braces
    ensures s.mode == Code ==> Scan(s, t) == s
  {
    if t != "" {
      SpacesInCode(s, t[..|t| - 1]);
    }
  }

  /** Literals are opened by `'` or `"` only. */
  predicate ProperQuote(s: Lex) {
    s.mode.Quoted? || s.mode.Escaped? ==> s.mode.quote == '\'' || s.mode.quote == '"'
  }

  lemma {:induction false} QuotesAreProper(s: Lex, t: string)
    requires ProperQuote(s)
    ensures ProperQuote(Scan(s, t))
  {
    if t != "" {
      QuotesAreProper(s, t[..|t| - 1]);
    }
  }

  /** Spaces leave neither a block comment nor a literal. */
  lemma {:induction false} SpacesStayOutside(s: Lex, t: string)
    requires ProperQuote(s) && !s.InCode() && s.mode != LineComment && AllSpace(t)
    ensures !Scan(s, t).InCode() && Scan(s, t).mode != LineComment && ProperQuote(Scan(s, t))
  {
    if t != "" {
      SpacesStayOutside(s, t[..|t| - 1]);
    }
  }

  lemma {:induction false} OneLineStaysComment(s: Lex, t: string)
    requires s.mode == LineComment && OneLine(t)
    ensures Scan(s, t) == s
  {
    if t != "" {
      OneLineStaysComment(s, t[..|t| - 1]);
    }
  }

  /** Scanned from code, the size expression ends inside a `//` comment. */
  predicate EndsInLineComment(argument: string) {
    Scan(START, argument).mode == LineComment
  }

  /**
   * The stripped argument of a call, scanned as code, ends in code at the depth it started from,
   * unless it ends inside a `//` comment whose newline was stripped.
   */
  lemma StrippedArgument(argument: string, closing: Lex)
    requires Scan(Lex(Code, 1, 0), argument) == closing && closing.InCode() && closing.parens == 1
    ensures var core := Scan(START, Strip(argument));
            EndsInLineComment(Strip(argument)) || (core.InCode() && core.parens == 0 && core.braces == closing.braces)
  {
    var lead, trail := StripParts(argument);
    StrippedParts(lead, Strip(argument), trail, closing);
  }

  lemma StrippedParts(lead: string, core: string, trail: string, closing: Lex)
    requires AllSpace(lead) && AllSpace(trail)
    requires Scan(Lex(Code, 1, 0), lead + (core + trail)) == closing && closing.InCode() && closing.parens == 1
    ensures var s := Scan(START, core);
            s.mode == LineComment || (s.InCode() && s.parens == 0 && s.braces == closing.braces)
  {
    var s := Lex(Code, 1, 0);
    ScanAppend(s, lead, core + trail);
    SpacesInCode(s, lead);
    ScanAppend(s, core, trail);
    ScanShift(START, core, 1, 0);
    QuotesAreProper(s, core);
    if Scan(s, core).InCode() {
      SpacesInCode(Scan(s, core), trail);
    } else if Scan(s, core).mode != LineComment {
      SpacesStayOutside(Scan(s, core), trail);
    }
  }

  /** The replacement, scanned as code, comes back to code with all nesting undone. */
  lemma ReplacementInCode(t: Template, core: string)
    requires t.Named() && Scan(START, core).InCode() && Scan(START, core).parens == 0
    ensures Scan(START, t.Before() + core + t.After()) == Lex(Code, 0, Scan(START, core).braces)
  {
    BeforeOpens(t);
    AfterStartsParen(t);
    AfterCloses(t);
    WrappedInCode(t.Before(), core, t.After(), Inside(t));
  }

  lemma WrappedInCode(before: string, core: string, after: string, k: Lex)
    requires k.mode == Code && Scan(START, before) == k && Scan(k, after) == START
    requires after != "" && after[0] == ')'
    requires Scan(START, core).InCode() && Scan(START, core).parens == 0
    ensures Scan(START, before + core + after) == Lex(Code, 0, Scan(START, core).braces)
  {
    ScanAppend(START, before + core, after);
    ScanAppend(START, before, core);
    ScanShift(START, core, k.parens, k.braces);
    ClosedAfter(Scan(START, core), after, k);
  }

  lemma ClosedAfter(c: Lex, after: string, k: Lex)
    requires k.mode == Code && Scan(k, after) == START && after != "" && after[0] == ')'
    requires c.InCode() && c.parens == 0
    ensures Scan(Lex(c.mode, k.parens, c.braces + k.braces), after) == Lex(Code, 0, c.braces)
  {
    ScanInCode(Lex(c.mode, k.parens, c.braces + k.braces), after);
    ScanInCode(k, after);
  }

  lemma AfterStartsParen(t: Template)
    ensures t.After() != "" && t.After()[0] == ')'
  {
  }

  /** A `//` comment left open by the argument swallows the rest of the replacement. */
  lemma ReplacementInComment(t: Template, core: string)
    requires t.Named() && EndsInLineComment(core)
    ensures Scan(START, t.Before() + core + t.After()).mode == LineComment
  {
    var k := Inside(t);
    ScanAppend(START, t.Before() + core, t.After());
    ScanAppend(START, t.Before(), core);
    BeforeOpens(t);
    ScanShift(START, core, k.parens, k.braces);
    AfterIsOneLine(t);
    OneLineStaysComment(Scan(k, core), t.After());
  }

  /** `argument` stays in code one parenthesis deep, and `text` around it comes back to depth 0. */
  ghost predicate ScansAsCall(argument: string, text: string) {
    var closing := Scan(Lex(Code, 1, 0), argument);
    && closing.InCode() && closing.parens == 1
    && Scan(START, text) == Lex(Code, 0, closing.braces)
  }

  /** A whole call, scanned as code, ends in code with the braces of its argument. */
  lemma CallInCode(source: string, call: Call)
    requires Shaped(source, call)
    ensures ScansAsCall(source[call.open + 1..call.end - 1], source[call.start..call.end])
  {
    var start, open, end := call.start, call.open, call.end;
    CallPieces(source, start, open, end);
    ListInCode(source, open, end);
    NameInCode(source[start + 6..open], source[open..end], source[start..end]);
  }

  lemma NameInCode(gap: string, list: string, text: string)
    requires AllSpace(gap) && text == "malloc" + (gap + list)
    ensures Scan(START, text) == Scan(START, list)
  {
    ScanAppend(START, "malloc", gap + list);
    PlainIsNeutral("malloc");
    ScanAppend(START, gap, list);
    SpacesInCode(START, gap);
  }

  lemma ListInCode(source: string, open: nat, end: nat)
    requires CloseAt(source, open) == end && open + 2 <= end <= |source| && source[open] == '('
    ensures ScansAsCall(source[open + 1..end - 1], source[open..end])
  {
    ClosingIsParen(source, open, end);
    assert source[open..end - 1] == "(" + source[open + 1..end - 1];
    ScanAppend(START, "(", source[open + 1..end - 1]);
    ScanChar(START, '(');
    assert source[open..end] == source[open..end - 1] + ")";
    ScanAppend(START, source[open..end - 1], ")");
    ScanChar(Scan(START, source[open..end - 1]), ')');
  }

  /** From every state in code, the replacement leads where the call it replaces leads. */
  ghost predicate LexKept(source: string, e: Edit)
    requires e.start <= e.end <= |source|
  {
    forall s: Lex :: s.InCode() ==> Scan(s, source[e.start..e.end]) == Scan(s, e.text)
  }

  /**
   * A replacement keeps the lexical mode and the nesting of parentheses and braces exactly when
   * the size expression does not end inside a `//` comment.
   */
  lemma ReplacementKeepsLex(source: string, site: Site, e: Edit, call: Call, body: (nat, nat), end: nat)
    requires site.template.Named() && Accepted(source, site, e, call, body, end)
    ensures e.start <= e.end <= |source|
    ensures LexKept(source, e) <==> !EndsInLineComment(call.argument)
  {
    ExtentStartsAtAnchor(source, e.start, end);
    CallShape(source, call, end);
    ShapedKeepsLex(source, site.template, e, call);
  }

  lemma ShapedKeepsLex(source: string, t: Template, e: Edit, call: Call)
    requires t.Named() && Shaped(source, call) && e.start == call.start && e.end == call.end
    requires e.text == t.Before() + call.argument + t.After()
    ensures LexKept(source, e) <==> !EndsInLineComment(call.argument)
  {
    CallInCode(source, call);
    var text := source[call.start..call.end];
    assert text[0] == source[call.start..call.start + 6][0] == 'm';
    TextOpens(t, call.argument);
    LexFollowsText(source[call.open + 1..call.end - 1], call.argument, t, text, e.text);
  }

  lemma LexFollowsText(argument: string, core: string, t: Template, text: string, replacement: string)
    requires t.Named() && core == Strip(argument) && replacement == t.Before() + core + t.After()
    requires ScansAsCall(argument, text)
    requires text != "" && text[0] == 'm' && replacement != "" && replacement[0] == '('
    ensures (forall s: Lex :: s.InCode() ==> Scan(s, text) == Scan(s, replacement)) <==> !EndsInLineComment(core)
  {
    StrippedArgument(argument, Scan(Lex(Code, 1, 0), argument));
    if EndsInLineComment(core) {
      ReplacementInComment(t, core);
      assert START.InCode();
    } else {
      ReplacementInCode(t, core);
      forall s: Lex | s.InCode()
        ensures Scan(s, text) == Scan(s, replacement)
      {
        ScanInCode(s, text);
        ScanInCode(s, replacement);
      }
    }
  }

  // ----- the lexical context of the whole text

  /**
   * When every call stands in code and no size expression ends in a `//` comment, each offset
   * outside the calls has the same lexical mode and nesting before and after all edits.
   */
  lemma {:induction false} ContextKept(source: string, s: Lex, from: nat, es: seq<Edit>, x: nat)
    requires Separate(source, from, es) && from <= x <= |source| && Untouched(es, x)
    requires AllKept(source, es)
    requires forall i :: 0 <= i < |es| ==> Scan(s, source[from..es[i].start]).InCode()
    ensures Scan(s, Replaced(source, from, es)[..NewOffset(source, from, es, x)]) == Scan(s, source[from..x])
    decreases |es|, 1
  {
    if es == [] || x < es[|es| - 1].start {
      PrefixCopied(source, from, es, x);
    } else {
      var e, rest := es[|es| - 1], es[..|es| - 1];
      var tail, n := RestKept(source, s, from, es, x);
      KeptAfter(source, s, from, e);
      ContextStep(source, s, from, e, tail, n, x, Replaced(source, from, es));
    }
  }

  /** Behind the first call: the rest of the edited text, and the offset of `x` in it. */
  lemma {:induction false} RestKept(source: string, s: Lex, from: nat, es: seq<Edit>, x: nat)
    returns (tail: string, n: nat)
    requires Separate(source, from, es) && from <= x <= |source| && Untouched(es, x)
    requires AllKept(source, es)
    requires forall i :: 0 <= i < |es| ==> Scan(s, source[from..es[i].start]).InCode()
    requires es != [] && es[|es| - 1].start <= x
    ensures var e := es[|es| - 1];
            && e.end <= x && n <= |tail|
            && Replaced(source, from, es) == source[from..e.start] + (e.text + tail)
            && NewOffset(source, from, es, x) == e.start - from + |e.text| + n
            && Scan(Scan(s, source[from..e.end]), tail[..n]) == Scan(Scan(s, source[from..e.end]), source[e.end..x])
    decreases |es|, 0
  {
    var e, rest := es[|es| - 1], es[..|es| - 1];
    RestInCode(source, s, from, e.end, rest);
    ContextKept(source, Scan(s, source[from..e.end]), e.end, rest, x);
    BeyondFirst(source, from, es, x);
    tail, n := Replaced(source, e.end, rest), NewOffset(source, e.end, rest, x);
  }

  ghost predicate AllKept(source: string, es: seq<Edit>)
    requires Separate(source, 0, es)
  {
    es == [] || (LexKept(source, es[|es| - 1]) && AllKept(source, es[..|es| - 1]))
  }

  lemma {:induction false} EachKept(source: string, es: seq<Edit>)
    requires Separate(source, 0, es) && forall i :: 0 <= i < |es| ==> LexKept(source, es[i])
    ensures AllKept(source, es)
  {
    if es != [] {
      EachKept(source, es[..|es| - 1]);
    }
  }

  lemma KeptAfter(source: string, s: Lex, from: nat, e: Edit)
    requires from <= e.start <= e.end <= |source| && LexKept(source, e) && Scan(s, source[from..e.start]).InCode()
    ensures SameScan(s, source[from..e.start], source[e.start..e.end], e.text)
  {
  }

  /** After `gap`, the text `a` scans like `b`. */
  predicate SameScan(s: Lex, gap: string, a: string, b: string) {
    Scan(Scan(s, gap), a) == Scan(Scan(s, gap), b)
  }

  lemma BeyondFirst(source: string, from: nat, es: seq<Edit>, x: nat)
    requires Separate(source, from, es) && from <= x <= |source| && Untouched(es, x)
    requires es != [] && es[|es| - 1].start <= x
    ensures var e, rest := es[|es| - 1], es[..|es| - 1];
            && Replaced(source, from, es) == source[from..e.start] + (e.text + Replaced(source, e.end, rest))
            && NewOffset(source, from, es, x) == e.start - from + |e.text| + NewOffset(source, e.end, rest, x)
            && NewOffset(source, e.end, rest, x) <= |Replaced(source, e.end, rest)|
  {
  }

  lemma PrefixCopied(source: string, from: nat, es: seq<Edit>, x: nat)
    requires Separate(source, from, es) && from <= x <= |source| && (es == [] || x < es[|es| - 1].start)
    ensures Untouched(es, x) && NewOffset(source, from, es, x) == x - from
    ensures Replaced(source, from, es)[..x - from] == source[from..x]
  {
    ReplacedPrefix(source, from, x, es);
  }

  lemma RestInCode(source: string, s: Lex, from: nat, mid: nat, es: seq<Edit>)
    requires from <= mid <= |source| && Separate(source, mid, es)
    requires forall i :: 0 <= i < |es| ==> Scan(s, source[from..es[i].start]).InCode()
    ensures forall i :: 0 <= i < |es| ==> Scan(Scan(s, source[from..mid]), source[mid..es[i].start]).InCode()
  {
    forall i | 0 <= i < |es|
      ensures Scan(Scan(s, source[from..mid]), source[mid..es[i].start]).InCode()
    {
      assert source[from..es[i].start] == source[from..mid] + source[mid..es[i].start];
      ScanAppend(s, source[from..mid], source[mid..es[i].start]);
    }
  }

  lemma ContextStep(source: string, s: Lex, from: nat, e: Edit, tail: string, n: nat, x: nat, whole: string)
    requires from <= e.start <= e.end <= x <= |source| && n <= |tail|
    requires whole == source[from..e.start] + (e.text + tail)
    requires SameScan(s, source[from..e.start], source[e.start..e.end], e.text)
    requires Scan(Scan(s, source[from..e.end]), tail[..n]) == Scan(Scan(s, source[from..e.end]), source[e.end..x])
    ensures Scan(s, whole[..e.start - from + |e.text| + n]) == Scan(s, source[from..x])
  {
    var gap, c := source[from..e.start], source[e.start..e.end];
    StepParts(source, from, e.start, e.end, x);
    PrefixOfThree(gap, e.text, tail, n);
    ScansMeet(s, gap, c, e.text, tail[..n], source[e.end..x]);
  }

  lemma StepParts(source: string, from: nat, start: nat, end: nat, x: nat)
    requires from <= start <= end <= x <= |source|
    ensures source[from..end] == source[from..start] + source[start..end]
    ensures source[from..x] == source[from..end] + source[end..x]
  {
  }

  lemma PrefixOfThree(a: string, b: string, c: string, n: nat)
    requires n <= |c|
    ensures (a + (b + c))[..|a| + |b| + n] == a + (b + c[..n])
  {
  }

  lemma ScansMeet(s: Lex, gap: string, c: string, t: string, p: string, q: string)
    requires Scan(Scan(s, gap), c) == Scan(Scan(s, gap), t)
    requires Scan(Scan(s, gap + c), p) == Scan(Scan(s, gap + c), q)
    ensures Scan(s, gap + (t + p)) == Scan(s, (gap + c) + q)
  {
    ScanAppend(s, gap, t + p);
    ScanAppend(Scan(s, gap), t, p);
    ScanAppend(s, gap, c);
    ScanAppend(s, gap + c, q);
  }

  // ----- the instrumented source as a whole

  /** The size expression of an accepted site. */
  ghost function SizeExpression(source: string, site: Site): string
    requires Plan(source, site).Ok?
  {
    var start := SourceOffset(source, site.startLine, site.startColumn, false).value;
    var end := SourceOffset(source, site.endLine, site.endColumn, true).value;
    CallExtent(source, start, end).value.argument
  }

  /** Every call stands in code, and no size expression ends inside a `//` comment. */
  ghost predicate CallsInCode(source: string, sites: seq<Site>, es: seq<Edit>)
    requires Planned(source, sites, es)
  {
    forall i :: 0 <= i < |sites| ==>
      && es[i].start <= |source| && Scan(START, source[..es[i].start]).InCode()
      && !EndsInLineComment(SizeExpression(source, sites[i]))
  }

  lemma SiteKeepsLex(source: string, site: Site, e: Edit)
    requires site.template.Named() && Plan(source, site) == Ok(e)
    ensures e.start <= e.end <= |source|
    ensures LexKept(source, e) <==> !EndsInLineComment(SizeExpression(source, site))
  {
    var call, body, end := PlanAccepts(source, site);
    ReplacementKeepsLex(source, site, e, call, body, end);
  }

  /**
   * Outside the calls the instrumented source has the characters of the source, in the same
   * lexical mode and at the same depth of parentheses and braces.
   */
  lemma InstrumentedContext(source: string, sites: seq<Site>, es: seq<Edit>, x: nat)
    requires Planned(source, sites, es) && Descending(sites) && Apart(es) && CallsInCode(source, sites, es)
    requires x < |source| && Untouched(es, x)
    ensures Separate(source, 0, es) && Fold(source, sites).Ok?
    ensures var out, n := Fold(source, sites).value, NewOffset(source, 0, es, x);
            n < |out| && out[n] == source[x] && Scan(START, out[..n]) == Scan(START, source[..x])
  {
    FoldIsSimultaneous(source, sites, es);
    CharactersKept(source, 0, es, x);
    forall i | 0 <= i < |es|
      ensures LexKept(source, es[i]) && Scan(START, source[0..es[i].start]).InCode()
    {
      SiteKeepsLex(source, sites[i], es[i]);
      assert source[0..es[i].start] == source[..es[i].start];
    }
    EachKept(source, es);
    ContextKept(source, START, 0, es, x);
    assert source[0..x] == source[..x];
  }
}
