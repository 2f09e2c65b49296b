/** What the searches of the instrumenter find, and exactly when each refusal is given. */
module SourceMeaning {
  import opened Results
  import opened CLexer
  import opened SourceText
  import opened FunctionBodies
  import opened Instrumenter

  // ----- function heads

  predicate SpacesBetween(s: string, lo: nat, hi: nat)
    requires lo <= hi <= |s|
  {
    forall i :: lo <= i < hi ==> IsSpace(s[i])
  }

  /** A parameter list at `pos`: spaces, `(` at `p`, the next `)` at `q`, spaces, and `{` just before `e`. */
  predicate IsList(s: string, pos: nat, p: nat, q: nat, e: nat) {
    && pos <= p < q && q + 2 <= e <= |s|
    && SpacesBetween(s, pos, p) && s[p] == '('
    && (forall i :: p < i < q ==> s[i] != ')') && s[q] == ')'
    && SpacesBetween(s, q + 1, e - 1) && s[e - 1] == '{'
  }

  lemma {:induction false} SkipSpacesIs(s: string, pos: nat, p: nat)
    requires pos <= p <= |s| && SpacesBetween(s, pos, p) && (p < |s| ==> !IsSpace(s[p]))
    ensures SkipSpaces(s, pos) == p
    decreases p - pos
  {
    if pos < p {
      SkipSpacesIs(s, pos + 1, p);
    }
  }

  lemma ListIsFound(s: string, pos: nat, p: nat, q: nat, e: nat)
    requires IsList(s, pos, p, q, e)
    ensures ParametersEnd(s, pos) == e
  {
    SkipSpacesIs(s, pos, p);
    SkipToParenStops(s, p + 1, q);
    SkipSpacesIs(s, q + 1, e - 1);
  }

  lemma FoundIsList(s: string, pos: nat) returns (p: nat, q: nat)
    requires pos <= |s| && ParametersEnd(s, pos) > 0
    ensures IsList(s, pos, p, q, ParametersEnd(s, pos))
  {
    p := SkipSpaces(s, pos);
    q := SkipToParen(s, p + 1);
  }

  ghost predicate ListBetween(s: string, pos: nat, e: nat) {
    exists p, q :: IsList(s, pos, p, q, e)
  }

  /** A head of `name` at `i..e`: the name as a whole word, and a parameter list up to a brace. */
  ghost predicate IsHead(s: string, name: string, i: nat, e: nat) {
    i <= |s| && WordBoundary(s, i) && StartsWith(s, i, name) && ListBetween(s, i + |name|, e)
  }

  /** `function_match` finds the leftmost head, and nothing exactly when there is none. */
  lemma LeftmostHead(s: string, name: string)
    ensures FindHead(s, 0, name).Ok? ==>
              && IsHead(s, name, FindHead(s, 0, name).value.0, FindHead(s, 0, name).value.1)
              && forall j: nat, e :: IsHead(s, name, j, e) ==> FindHead(s, 0, name).value.0 <= j
    ensures FindHead(s, 0, name).Err? ==>
              FindHead(s, 0, name) == Err(FunctionNotFound) && forall j: nat, e :: !IsHead(s, name, j, e)
  {
    OnlyNotFound(s, 0, name);
    if FindHead(s, 0, name).Ok? {
      FindHeadFinds(s, 0, name);
      FindHeadFirst(s, 0, name);
      HeadMeans(s, name, FindHead(s, 0, name).value.0, FindHead(s, 0, name).value.1);
    }
    forall j: nat, e | IsHead(s, name, j, e)
      ensures j <= |s| && HeadEnd(s, j, name) > 0 && FindHead(s, 0, name).Ok?
    {
      HeadMeans(s, name, j, e);
      FoundFrom(s, 0, name, j);
    }
  }

  lemma {:induction false} OnlyNotFound(s: string, i: nat, name: string)
    requires i <= |s|
    ensures FindHead(s, i, name).Ok? || FindHead(s, i, name) == Err(FunctionNotFound)
    decreases |s| - i
  {
    if HeadEnd(s, i, name) == 0 && i < |s| {
      OnlyNotFound(s, i + 1, name);
    }
  }

  lemma HeadMeans(s: string, name: string, i: nat, e: nat)
    ensures IsHead(s, name, i, e) <==> i <= |s| && HeadEnd(s, i, name) == e > 0
  {
    if i <= |s| && ListBetween(s, i + |name|, e) {
      var p, q :| IsList(s, i + |name|, p, q, e);
      ListIsFound(s, i + |name|, p, q, e);
    }
    if i <= |s| && HeadEnd(s, i, name) == e > 0 {
      var p, q := FoundIsList(s, i + |name|);
    }
  }

  // ----- lines and columns

  /** Line `line` begins at `o`. */
  predicate LineBegins(s: string, line: int, o: nat) {
    o < |s| && LocationOf(s, o) == Location(line, 1)
  }

  /**
   * The end offset of a place: just after the character there, or just after the end of the
   * visible line when the place is one column beyond it.
   */
  lemma EndInvertsLocation(s: string, line: int, column: int, o: nat)
    ensures column >= 2 ==>
              (SourceOffset(s, line, column, true) == Ok(o) <==>
               o >= 2 && Visible(s, o - 2) && LocationOf(s, o - 2) == Location(line, column - 1))
    ensures column == 1 ==>
              (SourceOffset(s, line, column, true) == Ok(o) <==> o >= 1 && LineBegins(s, line, o - 1))
  {
    if column >= 2 {
      EndIsTwoLater(s, line, column);
      if o >= 2 {
        OffsetInvertsLocation(s, line, column - 1, o - 2);
      }
    } else if column == 1 {
      OffsetsAgree(s, line, 1, true);
      LineStarts(s, line, o);
    }
  }

  lemma EndIsTwoLater(s: string, line: int, column: int)
    requires column >= 2
    ensures SourceOffset(s, line, column, true) == Shifted(SourceOffset(s, line, column - 1, false), 2)
  {
  }

  lemma {:induction false} LineStarts(s: string, line: int, o: nat)
    ensures LineByLine(s, line, 1, true) == Ok(o) <==> o >= 1 && LineBegins(s, line, o - 1)
    decreases |s|
  {
    if s != "" {
      var n := FirstLine(s);
      if 1 <= o <= n {
        LocationInFirstLine(s, o - 1);
      } else if o > n {
        if o - 1 < |s| {
          LocationAfterFirstLine(s, o - 1);
        }
        LineStarts(s[n..], line - 1, o - n);
      }
      if line > 1 && o <= n {
        LineStarts(s[n..], line - 1, 0);
      }
    }
  }

  /** Which places are refused, and why: not from 1, no such line, or no such column in it. */
  lemma OffsetRefusals(s: string, line: int, column: int, end: bool)
    ensures SourceOffset(s, line, column, end) == Err(NotOneBased) <==> line < 1 || column < 1
    ensures SourceOffset(s, line, column, end) == Err(LineOutOfRange) <==>
            line >= 1 && column >= 1 && forall o: nat :: !LineBegins(s, line, o)
    ensures SourceOffset(s, line, column, end).Ok?
            || SourceOffset(s, line, column, end) in {Err(NotOneBased), Err(LineOutOfRange), Err(ColumnOutOfRange)}
  {
    if line >= 1 && column >= 1 {
      OffsetsAgree(s, line, 1, true);
      if line <= |Lines(s)| {
        var o := LineExists(s, line);
        LineStarts(s, line, o + 1);
      } else {
        forall o: nat
          ensures !LineBegins(s, line, o)
        {
          LineStarts(s, line, o + 1);
        }
      }
    }
  }

  lemma LineExists(s: string, line: int) returns (o: nat)
    requires 1 <= line <= |Lines(s)|
    ensures SourceOffset(s, line, 1, true) == Ok(o + 1)
  {
    o := TotalLength(Lines(s)[..line - 1]);
  }

  // ----- the extent of a call

  /** The anchored text is `malloc`, spaces, and a list that opens at `open`. */
  predicate OpensAt(source: string, start: nat, open: nat) {
    && StartsWith(source, start, "malloc") && start + 6 <= open < |source|
    && SpacesBetween(source, start + 6, open) && source[open] == '('
  }

  /** Exactly when an anchored `malloc` has an argument list, and why it has none. */
  lemma OpeningMeans(source: string, start: nat, end: nat)
    ensures forall open: nat :: ListOpening(source, start, end) == Ok(open) <==> OpensAt(source, start, open) && start + 6 <= end
    ensures ListOpening(source, start, end) == Err(NotMalloc) <==> end <= start || !StartsWith(source, start, "malloc")
    ensures ListOpening(source, start, end) == Err(TruncatedToken) <==>
            start < end < start + 6 && StartsWith(source, start, "malloc")
    ensures ListOpening(source, start, end) == Err(NoArgumentList) <==>
            start + 6 <= end && StartsWith(source, start, "malloc") && forall open: nat :: !OpensAt(source, start, open)
    ensures ListOpening(source, start, end).Ok?
            || ListOpening(source, start, end) in {Err(NotMalloc), Err(TruncatedToken), Err(NoArgumentList)}
  {
    forall open: nat | OpensAt(source, start, open)
      ensures SkipSpaces(source, start + 6) == open
    {
      SkipSpacesIs(source, start + 6, open);
    }
    if StartsWith(source, start, "malloc") && SkipSpaces(source, start + 6) < |source|
       && source[SkipSpaces(source, start + 6)] == '('
    {
      assert OpensAt(source, start, SkipSpaces(source, start + 6));
    }
  }

  /** The anchor covers nothing but spaces beyond `e`. */
  predicate OnlySpacesBeyond(source: string, e: nat, end: nat) {
    forall i :: e <= i < end && i < |source| ==> IsSpace(source[i])
  }

  /** Exactly which calls are accepted, and why others are not. */
  lemma ExtentMeans(source: string, start: nat, end: nat, open: nat, e: nat)
    requires OpensAt(source, start, open) && start + 6 <= end
    requires CloseAt(source, open) == e
    ensures e == 0 <==> CallExtent(source, start, end) == Err(UnterminatedArguments)
    ensures e > 0 ==> open + 1 < e <= |source|
    ensures e > 0 ==>
              (CallExtent(source, start, end) == Err(EmptyArgument) <==> AllSpace(source[open + 1..e - 1]))
    ensures e > 0 && !AllSpace(source[open + 1..e - 1]) ==>
              CallExtent(source, start, end) ==
              if OnlySpacesBeyond(source, e, end)
              then Ok(Call(start, e, open, Strip(source[open + 1..e - 1]))) else Err(SpanPastCall)
  {
    OpeningMeans(source, start, end);
    if e > 0 {
      ClosingIsParen(source, open, e);
      StripIsEmpty(source[open + 1..e - 1]);
      BeyondMeans(source, e, end);
    }
  }

  lemma BeyondMeans(source: string, e: nat, end: nat)
    ensures !(end > e && Strip(Slice(source, e, end)) != "") <==> OnlySpacesBeyond(source, e, end)
  {
    var rest := Slice(source, e, end);
    StripIsEmpty(rest);
    assert forall i :: 0 <= i < |rest| ==> rest[i] == source[e + i];
    assert forall i :: e <= i < end && i < |source| ==> source[i] == rest[i - e];
  }

  // ----- why a site is refused

  /** The errors of a site beyond those of its places, its function and its call. */
  lemma SiteRefusals(source: string, site: Site, start: nat, end: nat, body: (nat, nat))
    requires SourceOffset(source, site.startLine, site.startColumn, false) == Ok(start)
    requires SourceOffset(source, site.endLine, site.endColumn, true) == Ok(end)
    requires BodyOf(source, site.function_) == Ok(body)
    ensures Plan(source, site) == Err(InvalidSite) <==> site.template.Native? && end <= start
    ensures Plan(source, site) == Err(SiteEscapesFunction) <==>
            !(site.template.Native? && end <= start) && (start < body.0 || body.1 < end)
    ensures Plan(source, site) == Err(CallEscapesFunction) <==>
            !(site.template.Native? && end <= start) && body.0 <= start && end <= body.1
            && CallExtent(source, start, end).Ok? && body.1 < CallExtent(source, start, end).value.end
  {
    ExtentErrors(source, start, end);
  }

  lemma ExtentErrors(source: string, start: nat, end: nat)
    ensures CallExtent(source, start, end).Err? ==>
              CallExtent(source, start, end).error in
              {NotMalloc, TruncatedToken, NoArgumentList, EmptyArgument, SpanPastCall, UnterminatedArguments}
  {
    OpeningMeans(source, start, end);
  }

  /**
   * A site is accepted with an edit exactly when its places, its function and its call say so: the
   * anchor and the call lie within the body of the function.
   */
  lemma SiteAccepted(source: string, site: Site, e: Edit)
    ensures Plan(source, site) == Ok(e) <==>
            exists call, body, end :: Accepted(source, site, e, call, body, end)
  {
    if Plan(source, site) == Ok(e) {
      var call, body, end := PlanAccepts(source, site);
    }
  }
}
