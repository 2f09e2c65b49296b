/** A size expression that ends in a line comment: an accepted site whose replacement breaks the text. */
module CommentWitness {
  import opened Results
  import opened CLexer
  import opened SourceText
  import opened FunctionBodies
  import opened Instrumenter
  import opened Templates
  import opened SimultaneousEdits
  import opened EditedText

  const COMMENTED: string := "f(){malloc(8//\n)}"
  const COMMENTED_SITE: Site := Site("f", 1, 5, 2, 1, Wasm("a"))

  lemma CommentedLength()
    ensures |COMMENTED| == 17 && COMMENTED[..15] == "f(){malloc(8//\n" && COMMENTED[15..] == ")}"
  {
  }

  lemma CommentedLines()
    ensures |COMMENTED| == 17 && FirstLine(COMMENTED) == 15 && COMMENTED[15..] == ")}"
    ensures COMMENTED[..15] == "f(){malloc(8//\n" && FirstLine(")}") == 2
  {
    CommentedLength();
    CommentedFirst();
    FirstLineIs(")}", 2);
  }

  lemma CommentedFirst()
    ensures FirstLine(COMMENTED) == 15
  {
    assert COMMENTED[14] == '\n';
    FirstLineIs(COMMENTED, 15);
  }

  lemma CommentedStart()
    ensures SourceOffset(COMMENTED, 1, 5, false) == Ok(4)
  {
    CommentedLines();
    OffsetsAgree(COMMENTED, 1, 5, false);
  }

  lemma CommentedEnd()
    ensures SourceOffset(COMMENTED, 2, 1, true) == Ok(16)
  {
    CommentedLines();
    OffsetsAgree(COMMENTED, 2, 1, true);
    assert ")}"[..2] == ")}";
    assert LineByLine(")}", 1, 1, true) == Ok(1);
  }

  /** A line ends after its first break, or with the text. */
  lemma {:induction false} FirstLineIs(s: string, n: nat)
    requires 0 < n <= |s| && forall i :: 0 <= i < n - 1 ==> !IsLineBreak(s[i])
    requires if IsLineBreak(s[n - 1]) then s[n - 1] != '\r' else n == |s|
    ensures FirstLine(s) == n
    decreases n
  {
    if n > 1 {
      FirstLineIs(s[1..], n - 1);
    }
  }

  lemma CommentedHead()
    ensures FindHead(COMMENTED, 0, "f") == Ok((0, 4))
  {
    assert COMMENTED[0..1] == "f";
    assert COMMENTED[1] == '(' && COMMENTED[2] == ')' && COMMENTED[3] == '{';
    assert SkipSpaces(COMMENTED, 1) == 1 && SkipToParen(COMMENTED, 2) == 2 && SkipSpaces(COMMENTED, 3) == 3;
    assert ParametersEnd(COMMENTED, 1) == 4;
    assert HeadEnd(COMMENTED, 0, "f") == 4;
  }

  lemma CommentedClose()
    ensures BodyClose(COMMENTED, 4, 1) == Ok(17)
  {
    NoBraceUntil(COMMENTED, 4, 16);
    assert BodyClose(COMMENTED, 16, 1) == BodyClose(COMMENTED, 17, 0);
  }

  lemma CommentedBody()
    ensures BodyOf(COMMENTED, "f") == Ok((4, 16))
  {
    CommentedHead();
    CommentedClose();
  }

  /** The brace count does not change over text without braces. */
  lemma {:induction false} NoBraceUntil(s: string, pos: nat, e: nat)
    requires pos <= e <= |s| && forall i :: pos <= i < e ==> s[i] != '{' && s[i] != '}'
    ensures BodyClose(s, pos, 1) == BodyClose(s, e, 1)
    decreases e - pos
  {
    if pos < e {
      NoBraceUntil(s, pos + 1, e);
    }
  }

  lemma CommentedScan()
    ensures CloseAt(COMMENTED, 10) == 16
  {
    var s := COMMENTED;
    assert s[10..10] == "";
    DepthStep(s, 10, 10);
    DepthStep(s, 10, 11);
    DepthStep(s, 10, 12);
    DepthStep(s, 10, 13);
    DepthStep(s, 10, 14);
    DepthStep(s, 10, 15);
    assert Scan(START, s[10..11]) == Lex(Code, 1, 0);
    assert Scan(START, s[10..12]) == Lex(Code, 1, 0);
    assert Scan(START, s[10..13]) == Lex(Slash, 1, 0);
    assert Scan(START, s[10..14]) == Lex(LineComment, 1, 0);
    assert Scan(START, s[10..15]) == Lex(Code, 1, 0);
    assert Scan(START, s[10..16]) == START;
    CloseAtIs(s, 10, 16);
  }

  lemma StripBreak(t: string)
    requires t != "" && !IsSpace(t[0]) && !IsSpace(t[|t| - 1])
    ensures Strip(t + "\n") == t
  {
    var u := t + "\n";
    assert u[0] == t[0] && u[|t|] == '\n' && |u| - 1 == |t| && u[..|t|] == t;
    assert StripLeft(u) == u;
    assert StripRight(u) == StripRight(t) == t;
  }

  lemma CommentedSlice()
    ensures COMMENTED[11..15] == "8//" + "\n"
  {
  }

  lemma CommentedArgument()
    ensures Strip(COMMENTED[11..15]) == "8//"
    ensures EndsInLineComment("8//")
  {
    CommentedSlice();
    StripBreak("8//");
    OpenComment();
  }

  lemma OpenComment()
    ensures EndsInLineComment("8//")
  {
    ScanOne(START, "", '8');
    ScanOne(START, "8", '/');
    ScanOne(START, "8/", '/');
    assert "" + ['8'] == "8" && "8" + ['/'] == "8/" && "8/" + ['/'] == "8//";
  }

  lemma CommentedCall()
    ensures CallExtent(COMMENTED, 4, 16) == Ok(Call(4, 16, 10, "8//"))
  {
    CommentedScan();
    CommentedArgument();
    assert COMMENTED[4..10] == "malloc";
    assert SkipSpaces(COMMENTED, 10) == 10;
    assert ListOpening(COMMENTED, 4, 16) == Ok(10);
  }

  /** The edit the generator makes. */
  function CommentedEdit(): Edit {
    Edit(4, 16, COMMENTED_SITE.template.Before() + "8//" + COMMENTED_SITE.template.After())
  }

  lemma CommentedAccepted() returns (call: Call, body: (nat, nat), end: nat)
    ensures Accepted(COMMENTED, COMMENTED_SITE, CommentedEdit(), call, body, end)
    ensures EndsInLineComment(call.argument)
  {
    call, body, end := Call(4, 16, 10, "8//"), (4, 16), 16;
    CommentedStart();
    CommentedEnd();
    CommentedBody();
    CommentedCall();
    CommentedArgument();
  }

  lemma CommentedSize()
    requires Plan(COMMENTED, COMMENTED_SITE).Ok?
    ensures SizeExpression(COMMENTED, COMMENTED_SITE) == "8//"
  {
    CommentedStart();
    CommentedEnd();
    CommentedCall();
  }

  lemma OpenCommentBreaks(source: string, site: Site, e: Edit, call: Call, body: (nat, nat), end: nat)
    requires site.template.Named() && Accepted(source, site, e, call, body, end)
    requires EndsInLineComment(call.argument)
    ensures Plan(source, site) == Ok(e)
    ensures e.start <= e.end <= |source| && !LexKept(source, e)
  {
    AcceptedPlans(source, site, e, call, body, end);
    ReplacementKeepsLex(source, site, e, call, body, end);
  }

  lemma CommentedPlan()
    ensures Plan(COMMENTED, COMMENTED_SITE) == Ok(CommentedEdit())
    ensures 16 <= |COMMENTED| && !LexKept(COMMENTED, CommentedEdit())
  {
    var call, body, end := CommentedAccepted();
    OpenCommentBreaks(COMMENTED, COMMENTED_SITE, CommentedEdit(), call, body, end);
  }

  /** The generator accepts this site, and what it puts in its place does not scan like the call. */
  lemma CommentBreaksReplacement()
    ensures COMMENTED_SITE.template.Named()
    ensures Plan(COMMENTED, COMMENTED_SITE) == Ok(CommentedEdit())
    ensures EndsInLineComment(SizeExpression(COMMENTED, COMMENTED_SITE))
    ensures 16 <= |COMMENTED| && !LexKept(COMMENTED, CommentedEdit())
  {
    CommentedPlan();
    CommentedSize();
    CommentedArgument();
  }
}
