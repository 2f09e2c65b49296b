/** Scanning a printed `malloc` call gives its argument back. */
module ScannerRoundTrip {
  import opened Results
  import opened CLexer
  import opened SourceText
  import opened Instrumenter
  import opened Templates

  /** Text that stays in code at the end and never closes more parentheses than it opened. */
  ghost predicate Balanced(argument: string) {
    && Scan(START, argument).InCode() && Scan(START, argument).parens == 0
    && forall k :: 0 <= k <= |argument| ==> Scan(START, argument[..k]).parens >= 0
  }

  /** `prefix malloc(argument) suffix` */
  function CallText(prefix: string, argument: string, suffix: string): string {
    prefix + ("malloc(" + (argument + (")" + suffix)))
  }

  /** Whatever stands around it, the list of a balanced argument closes right after it. */
  lemma BalancedCloses(prefix: string, argument: string, suffix: string)
    requires Balanced(argument)
    ensures var text, open := CallText(prefix, argument, suffix), |prefix| + 6;
            && open < |text| && text[open] == '('
            && text[open + 1..open + 1 + |argument|] == argument
            && CloseAt(text, open) == open + |argument| + 2
  {
    var text, open := CallText(prefix, argument, suffix), |prefix| + 6;
    var e := open + |argument| + 2;
    assert text[open..open + 1] == "(";
    assert text[open + 1..open + 1 + |argument|] == argument;
    forall k | open < k < e
      ensures DepthAt(text, open, k) > 0
    {
      var j := k - open - 1;
      assert text[open..k] == "(" + argument[..j];
      OpenedDepth(argument[..j]);
    }
    assert argument[..|argument|] == argument;
    assert text[open..e] == ("(" + argument) + ")";
    OpenedDepth(argument);
    ScanAppend(START, "(" + argument, ")");
    ScanChar(Scan(START, "(" + argument), ')');
    CloseAtIs(text, open, e);
  }

  lemma OpenedDepth(t: string)
    ensures var s := Scan(START, t); Scan(START, "(" + t) == Lex(s.mode, s.parens + 1, s.braces)
  {
    ScanAppend(START, "(", t);
    ScanChar(START, '(');
    ScanShift(START, t, 1, 0);
  }

  /** `malloc_call_extent` recovers every balanced argument that is not blank. */
  lemma ScanRecoversArgument(prefix: string, argument: string, suffix: string, anchorEnd: nat)
    requires Balanced(argument) && Strip(argument) != ""
    requires |prefix| + 6 <= anchorEnd <= |prefix| + |argument| + 8
    ensures var text := CallText(prefix, argument, suffix);
            CallExtent(text, |prefix|, anchorEnd) ==
              Ok(Call(|prefix|, |prefix| + |argument| + 8, |prefix| + 6, Strip(argument)))
  {
    var text := CallText(prefix, argument, suffix);
    BalancedCloses(prefix, argument, suffix);
    assert text[|prefix|..|prefix| + 6] == "malloc";
    assert ListOpening(text, |prefix|, anchorEnd) == Ok(|prefix| + 6);
  }

  // ----- printed arguments

  datatype LiteralChar = Bare(c: char) | Escape(c: char)

  /** A size expression as a C programmer writes it, comments included. */
  datatype Item =
    | Plain(c: char)
    | Divide
    | Parens(items: seq<Item>)
    | Braces(items: seq<Item>)
    | Quotation(quote: char, chars: seq<LiteralChar>)
    | LineRemark(text: string)
    | BlockRemark(text: string)
  {
    ghost predicate WellFormed() {
      match this
      case Plain(c) => PlainChar(c)
      case Divide => true
      case Parens(items) => forall i :: i in items ==> i.WellFormed()
      case Braces(items) => forall i :: i in items ==> i.WellFormed()
      case Quotation(q, chars) =>
        (q == '"' || q == '\'') && forall l :: l in chars && l.Bare? ==> l.c != q && l.c != '\\'
      case LineRemark(text) => '\n' !in text
      case BlockRemark(text) => NoCloser(text)
    }

    function Print(): string {
      match this
      case Plain(c) => [c]
      case Divide => "/ "
      case Parens(items) => "(" + PrintAll(items) + ")"
      case Braces(items) => "{" + PrintAll(items) + "}"
      case Quotation(q, chars) => [q] + PrintChars(chars) + [q]
      case LineRemark(text) => "//" + text + "\n"
      case BlockRemark(text) => "/*" + text + "*/"
    }
  }

  /** The text does not contain the end of a block comment. */
  ghost predicate NoCloser(text: string) {
    forall i, j :: 0 <= i < j < |text| && j == i + 1 ==> !(text[i] == '*' && text[j] == '/')
  }

  function PrintAll(items: seq<Item>): string {
    if items == [] then "" else PrintAll(items[..|items| - 1]) + items[|items| - 1].Print()
  }

  function PrintChars(chars: seq<LiteralChar>): string {
    if chars == [] then "" else PrintChars(chars[..|chars| - 1]) + PrintChar(chars[|chars| - 1])
  }

  function PrintChar(l: LiteralChar): string {
    if l.Bare? then [l.c] else ['\\', l.c]
  }

  /** Scanned from `s`, the text never closes more parentheses than are open. */
  ghost predicate Above(s: Lex, t: string) {
    forall k :: 0 <= k <= |t| ==> Scan(s, t[..k]).parens >= 0
  }

  lemma AboveAppend(s: Lex, a: string, b: string)
    requires Above(s, a) && Above(Scan(s, a), b)
    ensures Above(s, a + b)
  {
    forall k | 0 <= k <= |a + b|
      ensures Scan(s, (a + b)[..k]).parens >= 0
    {
      if k <= |a| {
        assert (a + b)[..k] == a[..k];
      } else {
        assert (a + b)[..k] == a + b[..k - |a|];
        ScanAppend(s, a, b[..k - |a|]);
      }
    }
  }

  lemma AboveChar(s: Lex, c: char)
    requires s.parens >= 0 && Feed(s, c).parens >= 0
    ensures Above(s, [c]) && Scan(s, [c]) == Feed(s, c)
  {
    ScanChar(s, c);
    assert [c][..0] == "" && [c][..1] == [c];
  }

  /** A step that changes no depth. */
  lemma AboveThen(s: Lex, t: string, c: char)
    requires Above(s, t) && Feed(Scan(s, t), c).parens >= 0
    ensures Above(s, t + [c]) && Scan(s, t + [c]) == Feed(Scan(s, t), c)
  {
    assert t[..|t|] == t;
    AboveChar(Scan(s, t), c);
    AboveAppend(s, t, [c]);
    ScanOne(s, t, c);
  }

  /** Neutral text whose scan never goes below the depth it started from. */
  ghost predicate Nested(t: string) {
    Neutral(t) && Above(START, t)
  }

  lemma NestedAppend(a: string, b: string)
    requires Nested(a) && Nested(b)
    ensures Nested(a + b)
  {
    NeutralAppend(a, b);
    AboveAppend(START, a, b);
  }

  lemma NestedFrom(s: Lex, t: string)
    requires s.mode == Code && s.parens >= 0 && Nested(t)
    ensures Above(s, t) && Scan(s, t) == s
  {
    NeutralFrom(s, t);
    forall k | 0 <= k <= |t|
      ensures Scan(s, t[..k]).parens >= 0
    {
      ScanShift(START, t[..k], s.parens, s.braces);
    }
  }

  lemma EnclosedNested(opening: char, t: string, closing: char)
    requires Nested(t) && (opening, closing) in {('(', ')'), ('{', '}')}
    ensures Nested([opening] + t + [closing])
  {
    AboveChar(START, opening);
    var s := Feed(START, opening);
    NestedFrom(s, t);
    AboveAppend(START, [opening], t);
    ScanAppend(START, [opening], t);
    AboveThen(START, [opening] + t, closing);
  }

  /** One more plain or escaped character does not leave the literal. */
  lemma LiteralStep(q: char, t: string, l: LiteralChar)
    requires q == '"' || q == '\''
    requires l.Bare? ==> l.c != q && l.c != '\\'
    requires Scan(Lex(Quoted(q), 0, 0), t) == Lex(Quoted(q), 0, 0) && Above(Lex(Quoted(q), 0, 0), t)
    ensures Inside(q, t + PrintChar(l))
  {
    var s := Lex(Quoted(q), 0, 0);
    if l.Bare? {
      AboveThen(s, t, l.c);
    } else {
      AboveThen(s, t, '\\');
      assert Scan(s, t + ['\\']) == Lex(Escaped(q), 0, 0);
      AboveThen(s, t + ['\\'], l.c);
      assert t + ['\\', l.c] == t + ['\\'] + [l.c];
    }
  }

  ghost predicate Inside(q: char, t: string) {
    Scan(Lex(Quoted(q), 0, 0), t) == Lex(Quoted(q), 0, 0) && Above(Lex(Quoted(q), 0, 0), t)
  }

  lemma {:induction false} CharsInside(q: char, chars: seq<LiteralChar>)
    requires q == '"' || q == '\''
    requires forall l :: l in chars && l.Bare? ==> l.c != q && l.c != '\\'
    ensures Inside(q, PrintChars(chars))
  {
    if chars != [] {
      CharsInside(q, chars[..|chars| - 1]);
      LiteralStep(q, PrintChars(chars[..|chars| - 1]), chars[|chars| - 1]);
    }
  }

  lemma QuotationNested(q: char, chars: seq<LiteralChar>)
    requires Quotation(q, chars).WellFormed()
    ensures Nested(Quotation(q, chars).Print())
  {
    CharsInside(q, chars);
    AboveChar(START, q);
    AboveAppend(START, [q], PrintChars(chars));
    ScanAppend(START, [q], PrintChars(chars));
    AboveThen(START, [q] + PrintChars(chars), q);
  }

  lemma {:induction false} RemarkInside(s: Lex, text: string)
    requires s == Lex(LineComment, 0, 0) && '\n' !in text
    ensures Scan(s, text) == s && Above(s, text)
  {
    if text != "" {
      RemarkInside(s, text[..|text| - 1]);
      AboveThen(s, text[..|text| - 1], text[|text| - 1]);
      assert text[..|text| - 1] + [text[|text| - 1]] == text;
    }
  }

  lemma LineRemarkNested(text: string)
    requires '\n' !in text
    ensures Nested("//" + text + "\n")
  {
    AboveChar(START, '/');
    AboveThen(START, "/", '/');
    assert "/" + "/" == "//";
    RemarkInside(Lex(LineComment, 0, 0), text);
    AboveAppend(START, "//", text);
    ScanAppend(START, "//", text);
    AboveThen(START, "//" + text, '\n');
  }

  function LastStar(text: string): Mode {
    if text != "" && text[|text| - 1] == '*' then BlockStar else BlockComment
  }

  ghost predicate Remarked(text: string) {
    Above(Lex(BlockComment, 0, 0), text) && Scan(Lex(BlockComment, 0, 0), text) == Lex(LastStar(text), 0, 0)
  }

  lemma BlockStep(front: string, c: char)
    requires Remarked(front) && !(LastStar(front) == BlockStar && c == '/')
    ensures Remarked(front + [c])
  {
    AboveThen(Lex(BlockComment, 0, 0), front, c);
    assert LastStar(front + [c]) == if c == '*' then BlockStar else BlockComment;
  }

  /** Inside a block comment, the mode tells whether the last character was a star. */
  lemma {:induction false} BlockInside(text: string)
    requires NoCloser(text)
    ensures Remarked(text)
  {
    if text != "" {
      var n := |text| - 1;
      var front := text[..n];
      BlockInside(front);
      assert n > 0 ==> !(text[n - 1] == '*' && text[n] == '/');
      BlockStep(front, text[n]);
      assert front + [text[n]] == text;
    }
  }

  lemma BlockRemarkNested(text: string)
    requires BlockRemark(text).WellFormed()
    ensures Nested("/*" + text + "*/")
  {
    AboveChar(START, '/');
    AboveThen(START, "/", '*');
    assert "/" + "*" == "/*";
    BlockInside(text);
    AboveAppend(START, "/*", text);
    ScanAppend(START, "/*", text);
    AboveThen(START, "/*" + text, '*');
    AboveThen(START, "/*" + text + "*", '/');
    assert "/*" + text + "*" + "/" == "/*" + text + "*/";
  }

  lemma DivideNested()
    ensures Nested("/ ")
  {
    AboveChar(START, '/');
    AboveThen(START, "/", ' ');
    assert "/" + " " == "/ ";
  }

  /** Every printed item is nested text. */
  lemma {:induction false} PrintNested(item: Item)
    requires item.WellFormed()
    ensures Nested(item.Print())
    decreases item
  {
    match item
    case Plain(c) => AboveChar(START, c);
    case Divide => DivideNested();
    case Parens(items) =>
      PrintAllNested(items);
      EnclosedNested('(', PrintAll(items), ')');
    case Braces(items) =>
      PrintAllNested(items);
      EnclosedNested('{', PrintAll(items), '}');
    case Quotation(q, chars) => QuotationNested(q, chars);
    case LineRemark(text) => LineRemarkNested(text);
    case BlockRemark(text) => BlockRemarkNested(text);
  }

  lemma {:induction false} PrintAllNested(items: seq<Item>)
    requires forall i :: i in items ==> i.WellFormed()
    ensures Nested(PrintAll(items))
    decreases items
  {
    if items != [] {
      var front, last := items[..|items| - 1], items[|items| - 1];
      PrintAllNested(front);
      PrintNested(last);
      NestedAppend(PrintAll(front), last.Print());
    }
  }

  lemma PrintAllBalanced(items: seq<Item>)
    requires forall i :: i in items ==> i.WellFormed()
    ensures Balanced(PrintAll(items))
  {
    PrintAllNested(items);
  }

  /**
   * A call printed from any well-formed argument, comments, literals and nested lists included,
   * is scanned back to exactly that argument, whatever stands around it.
   */
  lemma ScanRecoversPrinted(prefix: string, items: seq<Item>, suffix: string, anchorEnd: nat)
    requires forall i :: i in items ==> i.WellFormed()
    requires Strip(PrintAll(items)) != ""
    requires |prefix| + 6 <= anchorEnd <= |prefix| + |PrintAll(items)| + 8
    ensures CallExtent(CallText(prefix, PrintAll(items), suffix), |prefix|, anchorEnd) ==
              Ok(Call(|prefix|, |prefix| + |PrintAll(items)| + 8, |prefix| + 6, Strip(PrintAll(items))))
  {
    PrintAllBalanced(items);
    ScanRecoversArgument(prefix, PrintAll(items), suffix, anchorEnd);
  }
}
