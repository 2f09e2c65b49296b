/**
 * Lexical modes of C source text, one character at a time: code, comments and literals
 * (sections 6.4.4.4, 6.4.5 and 6.4.9 of ISO C11), with the nesting of parentheses and braces.
 */
module CLexer {
  import opened Texts

  datatype Mode =
    | Code
    | Slash                 // in code, just after a `/`
    | LineComment
    | BlockComment
    | BlockStar             // in a block comment, just after a `*`
    | Quoted(quote: char)
    | Escaped(quote: char)  // in a literal, just after a backslash

  datatype Lex = Lex(mode: Mode, parens: int, braces: int) {
    predicate InCode() { mode.Code? || mode.Slash? }
  }

  const START := Lex(Code, 0, 0)

  function FeedCode(s: Lex, c: char): Lex {
    if c == '/' then s.(mode := Slash)
    else if c == '"' || c == '\'' then s.(mode := Quoted(c))
    else if c == '(' then Lex(Code, s.parens + 1, s.braces)
    else if c == ')' then Lex(Code, s.parens - 1, s.braces)
    else if c == '{' then Lex(Code, s.parens, s.braces + 1)
    else if c == '}' then Lex(Code, s.parens, s.braces - 1)
    else s.(mode := Code)
  }

  function Feed(s: Lex, c: char): Lex {
    match s.mode
    case Code => FeedCode(s, c)
    case Slash =>
      if c == '/' then s.(mode := LineComment)
      else if c == '*' then s.(mode := BlockComment)
      else FeedCode(s, c)
    case LineComment => if c == '\n' then s.(mode := Code) else s
    case BlockComment => if c == '*' then s.(mode := BlockStar) else s
    case BlockStar =>
      if c == '/' then s.(mode := Code)
      else if c == '*' then s
      else s.(mode := BlockComment)
    case Quoted(q) =>
      if c == '\\' then s.(mode := Escaped(q))
      else if c == q then s.(mode := Code)
      else s
    case Escaped(q) => s.(mode := Quoted(q))
  }

  function Scan(s: Lex, text: string): Lex {
    if text == "" then s else Feed(Scan(s, text[..|text| - 1]), text[|text| - 1])
  }

  lemma {:induction false} ScanAppend(s: Lex, a: string, b: string)
    ensures Scan(s, a + b) == Scan(Scan(s, a), b)
  {
    if b == "" {
      assert a + b == a;
    } else {
      assert (a + b)[..|a + b| - 1] == a + b[..|b| - 1];
      ScanAppend(s, a, b[..|b| - 1]);
    }
  }

  lemma ScanOne(s: Lex, a: string, c: char)
    ensures Scan(s, a + [c]) == Feed(Scan(s, a), c)
  {
    assert (a + [c])[..|a|] == a;
  }

  /** Nesting only adds up: the starting depths change nothing but the final ones. */
  lemma {:induction false} ScanShift(s: Lex, text: string, parens: int, braces: int)
    ensures Scan(Lex(s.mode, s.parens + parens, s.braces + braces), text) ==
            var t := Scan(s, text); Lex(t.mode, t.parens + parens, t.braces + braces)
  {
    if text != "" {
      ScanShift(s, text[..|text| - 1], parens, braces);
    }
  }

  // ----- the closing parenthesis of an argument list

  /** Parenthesis depth just before `source[e]`, for a scan that starts in code at `open`. */
  function DepthAt(source: string, open: nat, e: nat): int
    requires open <= e <= |source|
  {
    Scan(START, source[open..e]).parens
  }

  /** `e` is the first position after `open` at which the depth is back to 0. */
  ghost predicate Closes(source: string, open: nat, e: nat) {
    && open < e <= |source|
    && DepthAt(source, open, e) == 0
    && (forall k :: open < k < e ==> DepthAt(source, open, k) > 0)
  }

  /** Where the list opened at `open` closes, or 0 if it never does. */
  ghost function CloseAt(source: string, open: nat): (e: nat)
    ensures e != 0 ==> Closes(source, open, e)
    ensures e == 0 ==> forall k: nat :: !Closes(source, open, k)
  {
    if e: nat :| Closes(source, open, e) then e else 0
  }

  lemma CloseAtIs(source: string, open: nat, e: nat)
    requires Closes(source, open, e)
    ensures CloseAt(source, open) == e
  {
    ClosesOnce(source, open, CloseAt(source, open), e);
  }

  lemma ClosesOnce(source: string, open: nat, e: nat, e': nat)
    requires Closes(source, open, e) && Closes(source, open, e')
    ensures e == e'
  {
  }

  /** Only text up to the closing parenthesis matters. */
  lemma ClosesLocally(source: string, source': string, open: nat, e: nat)
    requires Closes(source, open, e) && e <= |source'| && source[..e] == source'[..e]
    ensures Closes(source', open, e)
  {
    forall k | open <= k <= e
      ensures DepthAt(source', open, k) == DepthAt(source, open, k)
    {
      SamePart(source, source', e, open, k);
    }
  }

  /** The character that closes is a `)` in code, one level deep. */
  lemma ClosingIsParen(source: string, open: nat, e: nat)
    requires Closes(source, open, e) && source[open] == '('
    ensures open + 1 < e && source[e - 1] == ')'
    ensures var s := Scan(START, source[open..e - 1]); s.InCode() && s.parens == 1
    ensures Scan(START, source[open..e]).mode == Code
  {
    assert source[open..open + 1] == "" + [source[open]];
    ScanOne(START, "", source[open]);
    assert DepthAt(source, open, open + 1) == 1;
    assert source[open..e] == source[open..e - 1] + [source[e - 1]];
    ScanOne(START, source[open..e - 1], source[e - 1]);
    assert DepthAt(source, open, e - 1) > 0;
  }

  /** The last character of a closed list. */
  lemma ClosedListEnds(source: string, open: nat)
    requires CloseAt(source, open) != 0 && open < |source| && source[open] == '('
    ensures var e := CloseAt(source, open); open + 1 < e <= |source| && source[e - 1] == ')'
  {
    ClosingIsParen(source, open, CloseAt(source, open));
  }

  lemma DepthStep(source: string, open: nat, k: nat)
    requires open <= k < |source|
    ensures Scan(START, source[open..k + 1]) == Feed(Scan(START, source[open..k]), source[k])
  {
    assert source[open..k + 1] == source[open..k] + [source[k]];
    ScanOne(START, source[open..k], source[k]);
  }

  datatype Quote = NoQuote | Open(c: char)

  /** How the scanner's variables before `source[pos]` stand for a lexical mode. */
  ghost predicate Represents(
    mode: Mode, quote: Quote, escaped: bool, lineComment: bool, blockComment: bool, source: string, pos: nat)
    requires pos <= |source|
  {
    if lineComment then mode == LineComment && !blockComment && quote.NoQuote? && !escaped
    else if blockComment then
      && quote.NoQuote? && !escaped
      && (mode == BlockComment || (mode == BlockStar && (pos < |source| ==> source[pos] != '/')))
    else if quote.Open? then mode == (if escaped then Escaped(quote.c) else Quoted(quote.c))
    else
      && !escaped
      && (mode == Code || (mode == Slash && (pos < |source| ==> source[pos] != '/' && source[pos] != '*')))
  }

  /** The scanning loop of `malloc_call_extent`: the end of the list opened at `open`, or 0. */
  method CloseOf(source: string, open: nat) returns (e: nat)
    requires open < |source| && source[open] == '('
    ensures e == CloseAt(source, open)
  {
    var depth := 0;
    var quote := NoQuote;
    var escaped := false;
    var lineComment := false;
    var blockComment := false;
    var pos := open;
    while pos < |source|
      invariant open <= pos <= |source|
      invariant depth == DepthAt(source, open, pos)
      invariant forall k :: open < k <= pos ==> DepthAt(source, open, k) > 0
      invariant pos == open ==> quote == NoQuote && !escaped && !lineComment && !blockComment
      invariant Represents(Scan(START, source[open..pos]).mode, quote, escaped, lineComment, blockComment, source, pos)
      decreases |source| - pos
    {
      var ch := source[pos];
      DepthStep(source, open, pos);
      if pos + 1 < |source| {
        DepthStep(source, open, pos + 1);
      }
      if lineComment {
        if ch == '\n' {
          lineComment := false;
        }
        pos := pos + 1;
      } else if blockComment {
        if ch == '*' && pos + 1 < |source| && source[pos + 1] == '/' {
          blockComment := false;
          pos := pos + 2;
        } else {
          pos := pos + 1;
        }
      } else if quote.Open? {
        if escaped {
          escaped := false;
        } else if ch == '\\' {
          escaped := true;
        } else if ch == quote.c {
          quote := NoQuote;
        }
        pos := pos + 1;
      } else if ch == '/' && pos + 1 < |source| && source[pos + 1] == '/' {
        lineComment := true;
        pos := pos + 2;
      } else if ch == '/' && pos + 1 < |source| && source[pos + 1] == '*' {
        blockComment := true;
        pos := pos + 2;
      } else if ch == '"' || ch == '\'' {
        quote := Open(ch);
        pos := pos + 1;
      } else {
        if ch == '(' {
          depth := depth + 1;
        } else if ch == ')' {
          depth := depth - 1;
          if depth == 0 {
            CloseAtIs(source, open, pos + 1);
            return pos + 1;
          }
          if depth < 0 {
            assert false;
          }
        }
        pos := pos + 1;
      }
    }
    NeverCloses(source, open);
    return 0;
  }

  lemma NeverCloses(source: string, open: nat)
    requires open < |source| && forall k :: open < k <= |source| ==> DepthAt(source, open, k) > 0
    ensures CloseAt(source, open) == 0
  {
  }
}
