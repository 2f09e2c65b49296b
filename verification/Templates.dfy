/** The replacement templates keep brace counts and lexical modes of the text around them. */
module Templates {
  import opened CLexer
  import opened SourceText
  import opened FunctionBodies
  import opened Instrumenter
  import opened Names

  // ----- braces

  ghost predicate NoBraces(t: string) {
    forall i :: 0 <= i < |t| ==> t[i] != '{' && t[i] != '}'
  }

  lemma {:induction false} NoBracesNet(t: string)
    requires NoBraces(t)
    ensures Net(t) == 0
  {
    if t != "" {
      NoBracesNet(t[1..]);
    }
  }

  lemma LabelHasNoBraces(name: string)
    requires IsIdentifier(name)
    ensures NoBraces(LabelStatement(name))
  {
    assert NoBraces(name);
    assert NoBraces(LabelAsm(name));
    assert NoBraces(Literal(LabelAsm(name)) + (" ::: " + Literal("memory")));
  }

  lemma SiteCallHasNoBraces(endLabel: string)
    requires IsIdentifier(endLabel)
    ensures NoBraces(SiteCall(endLabel))
  {
    LabelHasNoBraces(endLabel);
    assert NoBraces(ResultValue());
    NoBracesAppend(LabelStatement(endLabel), ResultValue());
    NoBracesAppend("; ", LabelStatement(endLabel) + ResultValue());
    assert NoBraces("__interspec_ptr = INTERSPEC_SITE_ALLOC");
    assert NoBraces(Paren("__interspec_size"));
    NoBracesAppend(Paren("__interspec_size"), "; " + (LabelStatement(endLabel) + ResultValue()));
  }

  lemma NoBracesAppend(a: string, b: string)
    requires NoBraces(a) && NoBraces(b)
    ensures NoBraces(a + b)
  {
  }

  lemma NativeCallHasNoBraces(beginLabel: string, endLabel: string)
    requires IsIdentifier(beginLabel) && IsIdentifier(endLabel)
    ensures NoBraces(NativeCall(beginLabel, endLabel))
  {
    LabelHasNoBraces(beginLabel);
    SiteCallHasNoBraces(endLabel);
    assert NoBraces(LabelStatement(beginLabel) + SiteCall(endLabel));
  }

  /** Whatever is put between its two parts, a template adds no net brace. */
  lemma TemplateNet(t: Template)
    requires t.Named()
    ensures Net(t.Before()) + Net(t.After()) == 0
  {
    match t
    case Wasm(allocator) => WasmNet(allocator);
    case Native(beginLabel, endLabel) =>
      NativeBeforeNet(t);
      NativeAfterNet(beginLabel, endLabel);
  }

  lemma CastHasNoBraces()
    ensures NoBraces(Paren("uint32_t") + "(")
  {
    assert NoBraces(Paren("uint32_t"));
  }

  lemma WasmNet(allocator: string)
    requires IsIdentifier(allocator)
    ensures Net(Wasm(allocator).Before()) == 0 && Net(Wasm(allocator).After()) == 0
  {
    CastHasNoBraces();
    NoBracesAppend("(", Paren("uint32_t") + "(");
    NoBracesAppend(allocator, "(" + (Paren("uint32_t") + "("));
    assert NoBraces(Paren("uintptr_t"));
    NoBracesAppend(Paren("uintptr_t"), allocator + ("(" + (Paren("uint32_t") + "(")));
    assert NoBraces(Paren("void*"));
    NoBracesNet(Wasm(allocator).Before());
    NoBracesNet(Wasm(allocator).After());
  }

  lemma NativeBeforeNet(t: Template)
    requires t.Native?
    ensures Net(t.Before()) == 1
  {
    var inner := " uint32_t __interspec_size = " + (Paren("uint32_t") + "(");
    CastHasNoBraces();
    assert NoBraces(" uint32_t __interspec_size = ");
    NoBracesAppend(" uint32_t __interspec_size = ", Paren("uint32_t") + "(");
    NoBracesNet(inner);
    NoBracesNet("(");
    NetAppend("(", "{" + inner);
    NetAppend("{", inner);
    assert Net("{") == 1;
  }

  lemma NativeAfterNet(beginLabel: string, endLabel: string)
    requires IsIdentifier(beginLabel) && IsIdentifier(endLabel)
    ensures Net(Native(beginLabel, endLabel).After()) == -1
  {
    var call := NativeCall(beginLabel, endLabel);
    NativeCallHasNoBraces(beginLabel, endLabel);
    NoBracesNet(call);
    NoBracesNet(")");
    NetAppend(")", call + ("}" + ")"));
    NetAppend(call, "}" + ")");
    NetAppend("}", ")");
    assert Net("}") == -1;
  }

  // ----- lexical modes

  /** Scanned in code, `t` comes back to code with all nesting undone. */
  ghost predicate Neutral(t: string) {
    Scan(START, t) == START
  }

  /** A character without lexical meaning in code. */
  predicate PlainChar(c: char) {
    c != '/' && c != '"' && c != '\'' && c != '(' && c != ')' && c != '{' && c != '}'
  }

  lemma {:induction false} PlainIsNeutral(t: string)
    requires forall i :: 0 <= i < |t| ==> PlainChar(t[i])
    ensures Neutral(t)
  {
    if t != "" {
      PlainIsNeutral(t[..|t| - 1]);
    }
  }

  lemma NeutralFrom(s: Lex, t: string)
    requires s.mode == Code && Neutral(t)
    ensures Scan(s, t) == s
  {
    ScanShift(START, t, s.parens, s.braces);
  }

  lemma NeutralAppend(a: string, b: string)
    requires Neutral(a) && Neutral(b)
    ensures Neutral(a + b)
  {
    ScanAppend(START, a, b);
  }

  lemma ScanChar(s: Lex, c: char)
    ensures Scan(s, [c]) == Feed(s, c)
  {
    assert [c][..0] == "";
  }

  lemma ParenNeutral(t: string)
    requires Neutral(t)
    ensures Neutral(Paren(t))
  {
    ScanAppend(START, "(" + t, ")");
    ScanAppend(START, "(", t);
    ScanChar(START, '(');
    NeutralFrom(Lex(Code, 1, 0), t);
    ScanChar(Lex(Code, 1, 0), ')');
  }

  /** Inside a string literal, text without quotes and with whole escapes stays inside. */
  ghost predicate Inert(t: string) {
    Scan(Lex(Quoted('"'), 0, 0), t) == Lex(Quoted('"'), 0, 0)
  }

  lemma {:induction false} UnescapedIsInert(t: string)
    requires forall i :: 0 <= i < |t| ==> t[i] != '"' && t[i] != '\\'
    ensures Inert(t)
  {
    if t != "" {
      UnescapedIsInert(t[..|t| - 1]);
    }
  }

  lemma InertAppend(a: string, b: string)
    requires Inert(a) && Inert(b)
    ensures Inert(a + b)
  {
    ScanAppend(Lex(Quoted('"'), 0, 0), a, b);
  }

  lemma EscapeIsInert(c: char, t: string)
    requires Inert(t)
    ensures Inert(['\\', c] + t)
  {
    var q := Lex(Quoted('"'), 0, 0);
    ScanAppend(q, ['\\', c], t);
    assert ['\\', c] == ['\\'] + [c];
    ScanAppend(q, ['\\'], [c]);
    ScanChar(q, '\\');
    ScanChar(Feed(q, '\\'), c);
  }

  lemma LiteralNeutral(t: string)
    requires Inert(t)
    ensures Neutral(Literal(t))
  {
    ScanAppend(START, "\"" + t, "\"");
    ScanAppend(START, "\"", t);
    ScanChar(START, '"');
    ScanChar(Lex(Quoted('"'), 0, 0), '"');
  }

  lemma LabelAsmInert(name: string)
    requires IsIdentifier(name)
    ensures Inert(LabelAsm(name))
  {
    UnescapedIsInert(name);
    UnescapedIsInert(":");
    InertAppend(name, ":");
    var last := name + ":";
    EscapedNewline(last);
    var function_ := "\\n" + last;
    UnescapedIsInert(",@function");
    InertAppend(",@function", function_);
    assert ",@function" + function_ == ",@function\\n" + last;
    var middle := ",@function\\n" + last;
    InertAppend(name, middle);
    UnescapedIsInert(".type ");
    InertAppend(".type ", name + middle);
    EscapedNewline(".type " + (name + middle));
    assert "\\n" + (".type " + (name + middle)) == "\\n.type " + (name + middle);
    InertAppend(name, "\\n.type " + (name + middle));
    UnescapedIsInert(".globl ");
    InertAppend(".globl ", name + ("\\n.type " + (name + middle)));
  }

  lemma EscapedNewline(t: string)
    requires Inert(t)
    ensures Inert("\\n" + t)
  {
    EscapeIsInert('n', t);
    assert "\\n" + t == ['\\', 'n'] + t;
  }

  lemma LabelNeutral(name: string)
    requires IsIdentifier(name)
    ensures Neutral(LabelStatement(name))
  {
    LabelAsmInert(name);
    LiteralNeutral(LabelAsm(name));
    UnescapedIsInert("memory");
    LiteralNeutral("memory");
    PlainIsNeutral(" ::: ");
    NeutralAppend(" ::: ", Literal("memory"));
    var operands := Literal(LabelAsm(name)) + (" ::: " + Literal("memory"));
    NeutralAppend(Literal(LabelAsm(name)), " ::: " + Literal("memory"));
    ParenNeutral(operands);
    PlainIsNeutral("; ");
    NeutralAppend(Paren(operands), "; ");
    PlainIsNeutral("__asm__ __volatile__");
    NeutralAppend("__asm__ __volatile__", Paren(operands) + "; ");
  }

  lemma ResultNeutral()
    ensures Neutral(ResultValue())
  {
    PlainIsNeutral("void*");
    ParenNeutral("void*");
    PlainIsNeutral("uintptr_t");
    ParenNeutral("uintptr_t");
    PlainIsNeutral("__interspec_ptr; ");
    NeutralAppend(Paren("uintptr_t"), "__interspec_ptr; ");
    NeutralAppend(Paren("void*"), Paren("uintptr_t") + "__interspec_ptr; ");
  }

  lemma SiteCallNeutral(endLabel: string)
    requires IsIdentifier(endLabel)
    ensures Neutral(SiteCall(endLabel))
  {
    ResultNeutral();
    LabelNeutral(endLabel);
    NeutralAppend(LabelStatement(endLabel), ResultValue());
    PlainIsNeutral("; ");
    NeutralAppend("; ", LabelStatement(endLabel) + ResultValue());
    var rest := "; " + (LabelStatement(endLabel) + ResultValue());
    PlainIsNeutral("__interspec_size");
    ParenNeutral("__interspec_size");
    NeutralAppend(Paren("__interspec_size"), rest);
    PlainIsNeutral("__interspec_ptr = INTERSPEC_SITE_ALLOC");
    NeutralAppend("__interspec_ptr = INTERSPEC_SITE_ALLOC", Paren("__interspec_size") + rest);
  }

  lemma NativeCallNeutral(beginLabel: string, endLabel: string)
    requires IsIdentifier(beginLabel) && IsIdentifier(endLabel)
    ensures Neutral(NativeCall(beginLabel, endLabel))
  {
    LabelNeutral(beginLabel);
    SiteCallNeutral(endLabel);
    NeutralAppend(LabelStatement(beginLabel), SiteCall(endLabel));
    PlainIsNeutral("; uint32_t __interspec_ptr = 0; ");
    NeutralAppend("; uint32_t __interspec_ptr = 0; ", LabelStatement(beginLabel) + SiteCall(endLabel));
  }

  /** The lexical state that `Before` leaves to the size expression. */
  function Inside(t: Template): Lex {
    Lex(Code, 2, if t.Native? then 1 else 0)
  }

  lemma CastOpens()
    ensures Scan(START, Paren("uint32_t") + "(") == Lex(Code, 1, 0)
  {
    PlainIsNeutral("uint32_t");
    ParenNeutral("uint32_t");
    ScanAppend(START, Paren("uint32_t"), "(");
    ScanChar(START, '(');
  }

  lemma NativeBeforeOpens(t: Template)
    requires t.Native?
    ensures Scan(START, t.Before()) == Lex(Code, 2, 1)
  {
    CastOpens();
    var cast := Paren("uint32_t") + "(";
    PlainIsNeutral(" uint32_t __interspec_size = ");
    ScanAppend(START, " uint32_t __interspec_size = ", cast);
    var declared := " uint32_t __interspec_size = " + cast;
    ScanAppend(START, "(", "{" + declared);
    ScanChar(START, '(');
    ScanAppend(Lex(Code, 1, 0), "{", declared);
    ScanChar(Lex(Code, 1, 0), '{');
    ScanShift(START, declared, 1, 1);
  }

  lemma CallOpens()
    ensures Scan(START, "(" + (Paren("uint32_t") + "(")) == Lex(Code, 2, 0)
  {
    CastOpens();
    ScanAppend(START, "(", Paren("uint32_t") + "(");
    ScanChar(START, '(');
    ScanShift(START, Paren("uint32_t") + "(", 1, 0);
  }

  lemma WasmBeforeOpens(allocator: string)
    requires IsIdentifier(allocator)
    ensures Scan(START, Wasm(allocator).Before()) == Lex(Code, 2, 0)
  {
    var call := allocator + ("(" + (Paren("uint32_t") + "("));
    PlainIsNeutral("void*");
    ParenNeutral("void*");
    PlainIsNeutral("uintptr_t");
    ParenNeutral("uintptr_t");
    PlainIsNeutral(allocator);
    CallOpens();
    ScanAppend(START, allocator, "(" + (Paren("uint32_t") + "("));
    ScanAppend(START, Paren("uintptr_t"), call);
    ScanAppend(START, Paren("void*"), Paren("uintptr_t") + call);
  }

  lemma BeforeOpens(t: Template)
    requires t.Named()
    ensures Scan(START, t.Before()) == Inside(t)
  {
    match t
    case Native(_, _) => NativeBeforeOpens(t);
    case Wasm(allocator) => WasmBeforeOpens(allocator);
  }

  lemma AfterCloses(t: Template)
    requires t.Named()
    ensures Scan(Inside(t), t.After()) == START
  {
    match t
    case Wasm(_) =>
      ScanAppend(Inside(t), ")", ")");
      ScanChar(Inside(t), ')');
      ScanChar(Lex(Code, 1, 0), ')');
    case Native(beginLabel, endLabel) =>
      var call := NativeCall(beginLabel, endLabel);
      NativeCallNeutral(beginLabel, endLabel);
      ScanAppend(Inside(t), ")", call + ("}" + ")"));
      ScanChar(Inside(t), ')');
      ScanAppend(Lex(Code, 1, 1), call, "}" + ")");
      NeutralFrom(Lex(Code, 1, 1), call);
      ScanAppend(Lex(Code, 1, 1), "}", ")");
      ScanChar(Lex(Code, 1, 1), '}');
      ScanChar(Lex(Code, 1, 0), ')');
  }

  ghost predicate OneLine(t: string) {
    forall i :: 0 <= i < |t| ==> t[i] != '\n'
  }

  lemma LabelIsOneLine(name: string)
    requires IsIdentifier(name)
    ensures OneLine(LabelStatement(name))
  {
    assert OneLine(name);
    assert OneLine(LabelAsm(name));
    assert OneLine(Literal(LabelAsm(name)) + (" ::: " + Literal("memory")));
  }

  lemma SiteCallIsOneLine(endLabel: string)
    requires IsIdentifier(endLabel)
    ensures OneLine(SiteCall(endLabel))
  {
    LabelIsOneLine(endLabel);
    assert OneLine(ResultValue());
    assert OneLine("; " + (LabelStatement(endLabel) + ResultValue()));
  }

  /** No template contains a newline, so a line comment that enters one does not end in it. */
  lemma AfterIsOneLine(t: Template)
    requires t.Named()
    ensures OneLine(t.After())
  {
    match t
    case Wasm(_) =>
    case Native(beginLabel, endLabel) =>
      LabelIsOneLine(beginLabel);
      SiteCallIsOneLine(endLabel);
      assert OneLine(LabelStatement(beginLabel) + SiteCall(endLabel));
      assert OneLine(NativeCall(beginLabel, endLabel));
  }
}
