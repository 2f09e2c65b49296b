/** Instrumenting site after site, last one first, replaces all the original calls at once. */
module SimultaneousEdits {
  import opened Texts
  import opened Results
  import opened CLexer
  import opened SourceText
  import opened FunctionBodies
  import opened Instrumenter
  import opened Templates

  /** The edits, in descending order, do not meet and lie in `source[from..]`. */
  ghost predicate Separate(source: string, from: nat, es: seq<Edit>) {
    && from <= |source|
    && (forall i :: 0 <= i < |es| ==> from <= es[i].start <= es[i].end <= |source|)
    && (forall i, j :: 0 <= i < j < |es| ==> es[j].end <= es[i].start)
  }

  /** `source[from..]` with every edit made at once, in one pass from left to right. */
  function Replaced(source: string, from: nat, es: seq<Edit>): string
    requires Separate(source, from, es)
    decreases |es|
  {
    if es == [] then source[from..]
    else
      var e := es[|es| - 1];
      source[from..e.start] + (e.text + Replaced(source, e.end, es[..|es| - 1]))
  }

  /** Where the first of the edits begins. */
  function FirstStart(source: string, es: seq<Edit>): nat {
    if es == [] then |source| else es[|es| - 1].start
  }

  /** Text before the first edit is copied. */
  lemma ReplacedPrefix(source: string, from: nat, mid: nat, es: seq<Edit>)
    requires Separate(source, from, es) && from <= mid <= FirstStart(source, es)
    ensures Separate(source, mid, es)
    ensures Replaced(source, from, es) == source[from..mid] + Replaced(source, mid, es)
  {
    SplitSlice(source, from, mid, FirstStart(source, es));
    if es == [] {
      assert source[from..|source|] == source[from..] && source[mid..|source|] == source[mid..];
    } else {
      var e := es[|es| - 1];
      var tail := e.text + Replaced(source, e.end, es[..|es| - 1]);
      Associate(source[from..mid], source[mid..e.start], tail);
    }
  }

  lemma SplitSlice(source: string, from: nat, mid: nat, to: nat)
    requires from <= mid <= to <= |source|
    ensures source[from..to] == source[from..mid] + source[mid..to]
  {
  }

  lemma Associate(a: string, b: string, c: string)
    ensures (a + b) + c == a + (b + c)
  {
  }

  // ----- braces of the calls and of their replacements

  lemma {:induction false} SpacesHaveNoBraces(t: string)
    requires AllSpace(t)
    ensures Net(t) == 0
  {
    if t != "" {
      assert AllSpace(t[1..]);
      SpacesHaveNoBraces(t[1..]);
    }
  }

  lemma StripNet(t: string)
    ensures Net(Strip(t)) == Net(t)
  {
    var lead, trail := StripParts(t);
    SpacesHaveNoBraces(lead);
    SpacesHaveNoBraces(trail);
    NetAppend(lead, Strip(t) + trail);
    NetAppend(Strip(t), trail);
  }

  /** The shape of an accepted call. */
  ghost predicate Shaped(source: string, call: Call) {
    && call.start + 6 <= call.open && call.open + 2 <= call.end <= |source|
    && source[call.start..call.start + 6] == "malloc"
    && source[call.open] == '(' && source[call.end - 1] == ')'
    && AllSpace(source[call.start + 6..call.open])
    && CloseAt(source, call.open) == call.end
    && Strip(source[call.open + 1..call.end - 1]) == call.argument
  }

  lemma CallShape(source: string, call: Call, anchorEnd: nat)
    requires IsCall(source, call, anchorEnd)
    ensures Shaped(source, call)
  {
    OpeningShape(source, call.start, anchorEnd, call.open);
    ClosedListEnds(source, call.open);
    ArgumentIs(source, call, anchorEnd);
  }

  lemma OpeningShape(source: string, start: nat, anchorEnd: nat, open: nat)
    requires ListOpening(source, start, anchorEnd) == Ok(open)
    ensures start + 6 <= open < |source| && source[open] == '('
    ensures source[start..start + 6] == "malloc"
    ensures AllSpace(source[start + 6..open])
  {
  }

  lemma ArgumentIs(source: string, call: Call, anchorEnd: nat)
    requires call.open + 1 < call.end <= |source|
    requires ClosedCall(source, call.start, anchorEnd, call.open, call.end) == Ok(call)
    ensures Strip(source[call.open + 1..call.end - 1]) == call.argument
  {
  }

  /** The text of a call, piece by piece. */
  lemma CallPieces(source: string, start: nat, open: nat, end: nat)
    requires start + 6 <= open && open + 2 <= end <= |source|
    requires source[start..start + 6] == "malloc" && source[open] == '(' && source[end - 1] == ')'
    ensures source[open..end] == "(" + (source[open + 1..end - 1] + ")")
    ensures source[start..end] == "malloc" + (source[start + 6..open] + source[open..end])
  {
    assert source[start..end] == source[start..start + 6] + (source[start + 6..open] + source[open..end]);
  }

  lemma CallNet(source: string, call: Call)
    requires Shaped(source, call)
    ensures Net(source[call.start..call.end]) == Net(call.argument)
  {
    CallPieces(source, call.start, call.open, call.end);
    PiecesNet(source[call.start..call.end], source[call.start + 6..call.open],
              source[call.open + 1..call.end - 1], call.argument);
  }

  lemma PiecesNet(text: string, gap: string, argument: string, stripped: string)
    requires AllSpace(gap) && text == "malloc" + (gap + ("(" + (argument + ")"))) && stripped == Strip(argument)
    ensures Net(text) == Net(stripped)
  {
    SpacesHaveNoBraces(gap);
    StripNet(argument);
    NoBracesNet("malloc");
    NoBracesNet("(");
    NoBracesNet(")");
    NetOfFive("malloc", gap, "(", argument, ")");
  }

  lemma NetOfFive(a: string, b: string, c: string, d: string, e: string)
    ensures Net(a + (b + (c + (d + e)))) == Net(a) + Net(b) + Net(c) + Net(d) + Net(e)
  {
    NetAppend(a, b + (c + (d + e)));
    NetAppend(b, c + (d + e));
    NetAppend(c, d + e);
    NetAppend(d, e);
  }

  lemma TextNet(t: Template, argument: string)
    requires t.Named()
    ensures Net(t.Before() + argument + t.After()) == Net(argument)
  {
    TemplateNet(t);
    NetAppend(t.Before() + argument, t.After());
    NetAppend(t.Before(), argument);
  }

  /**
   * The replacement keeps the brace balance of the call, and some brace count passes over the
   * call without falling to 0 in it but falls to 0 after it: that of the function it is in.
   */
  ghost predicate Survivable(source: string, e: Edit) {
    && e.start <= e.end <= |source|
    && Net(e.text) == Net(source[e.start..e.end])
    && exists d :: SurvivesAt(source, e, d)
  }

  ghost predicate SurvivesAt(source: string, e: Edit, d: int)
    requires e.start <= e.end <= |source|
  {
    d >= 1 && !Hits(source[e.start..e.end], d) && Hits(source[e.end..], d + Net(source[e.start..e.end]))
  }

  ghost predicate AllSurvivable(source: string, es: seq<Edit>) {
    es == [] || (Survivable(source, es[|es| - 1]) && AllSurvivable(source, es[..|es| - 1]))
  }

  lemma {:induction false} EachSurvivable(source: string, es: seq<Edit>)
    requires forall i :: 0 <= i < |es| ==> Survivable(source, es[i])
    ensures AllSurvivable(source, es)
  {
    if es != [] {
      EachSurvivable(source, es[..|es| - 1]);
    }
  }

  lemma AcceptedSurvives(source: string, site: Site, e: Edit, call: Call, body: (nat, nat), end: nat)
    requires site.template.Named() && Accepted(source, site, e, call, body, end)
    ensures Survivable(source, e)
  {
    ExtentStartsAtAnchor(source, e.start, end);
    CallShape(source, call, end);
    CallNet(source, call);
    TextNet(site.template, call.argument);
    BodyParts(source, site.function_);
    FunctionSurvives(source, body.0, e);
  }

  lemma FunctionSurvives(source: string, pos: nat, e: Edit)
    requires pos <= e.start <= e.end <= |source|
    requires BodyClose(source, pos, 1).Ok? && e.end < BodyClose(source, pos, 1).value
    ensures exists d :: SurvivesAt(source, e, d)
  {
    var head, c, tail := source[pos..e.start], source[e.start..e.end], source[e.end..];
    var d := 1 + Net(head);
    BodyCloseFirst(source, pos, 1, e.end);
    BodyCloseFound(source, pos, 1);
    assert source[pos..e.end] == head + c;
    HitsAppend(head, c, 1);
    if d <= 0 {
      FallingHits(head, 1);
    }
    assert source[pos..] == source[pos..e.end] + tail;
    HitsAppend(head + c, tail, 1);
    NetAppend(head, c);
    assert SurvivesAt(source, e, d);
  }

  /** A brace count that falls to 0 in the rest of the source still does after the edits. */
  lemma {:induction false} ReplacedHits(source: string, from: nat, es: seq<Edit>, d: int)
    requires Separate(source, from, es) && d >= 1 && Hits(source[from..], d)
    requires AllSurvivable(source, es)
    ensures Hits(Replaced(source, from, es), d)
    decreases |es|, 0
  {
    if es != [] {
      var e, rest := es[|es| - 1], es[..|es| - 1];
      var gap := source[from..e.start];
      CountReaches(source, from, e, d);
      if !Hits(gap, d) {
        SurvivingHits(source, e, rest, d + Net(gap));
      }
      StepHits(source, from, es, d);
    }
  }

  lemma StepHits(source: string, from: nat, es: seq<Edit>, d: int)
    requires Separate(source, from, es) && es != []
    requires var e := es[|es| - 1];
             var gap := source[from..e.start];
             Hits(gap, d) || Hits(e.text, d + Net(gap))
             || Hits(Replaced(source, e.end, es[..|es| - 1]), d + Net(gap) + Net(e.text))
    ensures Hits(Replaced(source, from, es), d)
  {
    var e := es[|es| - 1];
    PartsHit(source[from..e.start], e.text, Replaced(source, e.end, es[..|es| - 1]), d, Replaced(source, from, es));
  }

  /** A count that falls to 0 does so before, in, or after the call. */
  lemma CountReaches(source: string, from: nat, e: Edit, d: int)
    requires from <= e.start <= e.end <= |source| && Hits(source[from..], d)
    ensures var gap, c := source[from..e.start], source[e.start..e.end];
            var d1 := d + Net(gap);
            Hits(gap, d) || (d1 >= 1 && (Hits(c, d1) || Hits(source[e.end..], d1 + Net(c))))
  {
    var gap, c, tail := source[from..e.start], source[e.start..e.end], source[e.end..];
    assert source[from..] == gap + (c + tail);
    HitsOfThree(gap, c, tail, d);
    if !Hits(gap, d) {
      StillPositive(gap, d);
    }
  }

  lemma PartsHit(a: string, b: string, c: string, d: int, whole: string)
    requires whole == a + (b + c)
    requires Hits(a, d) || Hits(b, d + Net(a)) || Hits(c, d + Net(a) + Net(b))
    ensures Hits(whole, d)
  {
    HitsOfThree(a, b, c, d);
  }

  lemma StillPositive(t: string, d: int)
    requires !Hits(t, d)
    ensures d + Net(t) >= 1
  {
    if d + Net(t) <= 0 {
      FallingHits(t, d);
    }
  }

  /** One edit further: either the replacement brings the count to 0, or the text after it does. */
  lemma {:induction false} SurvivingHits(source: string, e: Edit, rest: seq<Edit>, d: int)
    requires Separate(source, e.end, rest) && Survivable(source, e) && d >= 1
    requires Hits(source[e.start..e.end], d) || Hits(source[e.end..], d + Net(source[e.start..e.end]))
    requires AllSurvivable(source, rest)
    ensures Hits(e.text, d) || Hits(Replaced(source, e.end, rest), d + Net(e.text))
    decreases |rest|, 1
  {
    var c, tail := source[e.start..e.end], source[e.end..];
    var after := d + Net(c);
    if after <= 0 {
      FallingHits(e.text, d);
    } else if Hits(tail, after) {
      ReplacedHits(source, e.end, rest, after);
    } else {
      // The count of the enclosing function is higher, and comes down after the call.
      var k :| SurvivesAt(source, e, k);
      if k <= d {
        HitsLower(c, d, k);
      }
      StillPositive(c, k);
      ReplacedHits(source, e.end, rest, k + Net(c));
      HitsLower(Replaced(source, e.end, rest), k + Net(c), after);
    }
  }

  // ----- a site keeps its plan when later sites have been edited

  /** The edits of accepted sites. */
  ghost predicate Edits(source: string, es: seq<Edit>) {
    && Separate(source, 0, es)
    && forall i :: 0 <= i < |es| ==>
         && Survivable(source, es[i])
         && es[i].start < |source| && source[es[i].start] == 'm'
         && es[i].text != "" && es[i].text[0] == '('
  }

  /** Before the first edit the edited text is the source, and there it goes on with `(`. */
  lemma EditedAgrees(source: string, es: seq<Edit>)
    requires Edits(source, es) && es != []
    ensures AgreeBefore(source, Replaced(source, 0, es), FirstStart(source, es))
    ensures var e := FirstStart(source, es);
            Separate(source, e, es)
            && Replaced(source, 0, es) == source[..e] + Replaced(source, e, es)
  {
    var first := es[|es| - 1];
    var e := first.start;
    ReplacedPrefix(source, 0, e, es);
    assert source[0..e] == source[..e];
    var rest := Replaced(source, e, es);
    assert rest[0] == first.text[0] by {
      assert source[e..e] == "";
      assert rest == first.text + Replaced(source, first.end, es[..|es| - 1]);
    }
  }

  /** The analysed span ends before the next call starts: spaces at most follow the call in it. */
  lemma SpanEndsBefore(source: string, call: Call, anchorEnd: nat, next: nat)
    requires IsCall(source, call, anchorEnd) && call.end <= next < |source| && source[next] == 'm'
    ensures anchorEnd <= next
  {
    if anchorEnd > next {
      SpanTailIsBlank(source, call, anchorEnd);
      StripIsEmpty(Slice(source, call.end, anchorEnd));
      BlankAt(source, call.end, anchorEnd, next);
    }
  }

  lemma BlankAt(source: string, lo: nat, hi: nat, i: nat)
    requires AllSpace(Slice(source, lo, hi)) && lo <= i < |source| && i < hi
    ensures IsSpace(source[i])
  {
    assert Slice(source, lo, hi)[i - lo] == source[i];
  }

  lemma SpanTailIsBlank(source: string, call: Call, anchorEnd: nat)
    requires IsCall(source, call, anchorEnd) && anchorEnd > call.end
    ensures Strip(Slice(source, call.end, anchorEnd)) == ""
  {
  }

  lemma BodyKept(source: string, es: seq<Edit>, name: string, reach: nat)
    requires Edits(source, es) && es != [] && reach <= FirstStart(source, es)
    requires BodyOf(source, name).Ok? && BodyOf(source, name).value.0 <= reach <= BodyOf(source, name).value.1
    ensures var edited := Replaced(source, 0, es);
            && BodyOf(edited, name).Ok?
            && BodyOf(edited, name).value.0 == BodyOf(source, name).value.0
            && reach <= BodyOf(edited, name).value.1
  {
    var edited, pos := Replaced(source, 0, es), BodyOf(source, name).value.0;
    EditedAgrees(source, es);
    BodyParts(source, name);
    FindHeadLocal(source, edited, name, FirstStart(source, es));
    CloseKept(source, es, pos);
    CloseNotSooner(source, edited, FirstStart(source, es), pos, reach);
    BodyFrom(edited, name);
  }

  /** A body does not close before `reach` in the edited text if it does not in the source. */
  lemma CloseNotSooner(source: string, edited: string, e: nat, pos: nat, reach: nat)
    requires AgreeBefore(source, edited, e) && pos <= reach <= e
    requires BodyClose(source, pos, 1).Ok? && BodyClose(edited, pos, 1).Ok?
    requires reach < BodyClose(source, pos, 1).value
    ensures reach < BodyClose(edited, pos, 1).value
  {
    BodyCloseFirst(source, pos, 1, reach);
    BodyCloseFirst(edited, pos, 1, reach);
    SamePart(source, edited, e, pos, reach);
  }

  lemma BodyFrom(s: string, name: string)
    requires FindHead(s, 0, name).Ok? && BodyClose(s, FindHead(s, 0, name).value.1, 1).Ok?
    ensures BodyOf(s, name).Ok? && BodyOf(s, name).value.0 == FindHead(s, 0, name).value.1
    ensures BodyClose(s, FindHead(s, 0, name).value.1, 1).value == BodyOf(s, name).value.1 + 1
  {
    BodyCloseMoves(s, FindHead(s, 0, name).value.1);
  }

  /** A body that closes in the source closes in the edited text. */
  lemma CloseKept(source: string, es: seq<Edit>, pos: nat)
    requires Edits(source, es) && es != [] && pos <= FirstStart(source, es)
    requires BodyClose(source, pos, 1).Ok?
    ensures pos <= |Replaced(source, 0, es)| && BodyClose(Replaced(source, 0, es), pos, 1).Ok?
  {
    var e := FirstStart(source, es);
    EditedAgrees(source, es);
    EachSurvivable(source, es);
    forall d | d >= 1 && Hits(source[e..], d)
      ensures Hits(Replaced(source, e, es), d)
    {
      ReplacedHits(source, e, es, d);
    }
    CloseThrough(source, e, Replaced(source, e, es), Replaced(source, 0, es), pos);
  }

  /** Only what brace counts do after `e` matters to a body that starts before it. */
  lemma CloseThrough(source: string, e: nat, rest: string, edited: string, pos: nat)
    requires pos <= e <= |source| && edited == source[..e] + rest
    requires forall d :: d >= 1 && Hits(source[e..], d) ==> Hits(rest, d)
    requires BodyClose(source, pos, 1).Ok?
    ensures BodyClose(edited, pos, 1).Ok?
  {
    BodyCloseFound(source, pos, 1);
    BodyCloseFound(edited, pos, 1);
    var head := source[..e][pos..];
    SplitFrom(source, source[..e], source[e..], pos);
    SplitFrom(edited, source[..e], rest, pos);
    HitsBehind(head, source[e..], source[pos..]);
    HitsAppend(head, rest, 1);
  }

  lemma HitsBehind(head: string, tail: string, whole: string)
    requires whole == head + tail && Hits(whole, 1)
    ensures Hits(head, 1) || (1 + Net(head) >= 1 && Hits(tail, 1 + Net(head)))
  {
    HitsAppend(head, tail, 1);
    if !Hits(head, 1) {
      StillPositive(head, 1);
    }
  }

  lemma SplitFrom(whole: string, a: string, b: string, pos: nat)
    requires whole == a + b && pos <= |a|
    ensures whole[pos..] == a[pos..] + b
  {
  }

  lemma OpeningKept(source: string, edited: string, e: nat, start: nat, anchorEnd: nat, open: nat)
    requires AgreeBefore(source, edited, e) && open < e
    requires ListOpening(source, start, anchorEnd) == Ok(open)
    ensures ListOpening(edited, start, anchorEnd) == Ok(open)
  {
    OpeningShape(source, start, anchorEnd, open);
    SkipSpacesLocal(source, edited, start + 6, e);
    SamePart(source, edited, e, start, start + 6);
    SamePart(source, edited, e, open, open + 1);
    assert source[open] == source[open..open + 1][0] && edited[open] == edited[open..open + 1][0];
  }

  lemma CloseAtKept(source: string, edited: string, e: nat, open: nat)
    requires AgreeBefore(source, edited, e) && 0 < CloseAt(source, open) <= e
    ensures CloseAt(edited, open) == CloseAt(source, open)
  {
    var c := CloseAt(source, open);
    SamePart(source, edited, e, 0, c);
    assert source[..c] == source[0..c] && edited[..c] == edited[0..c];
    ClosesLocally(source, edited, open, c);
    CloseAtIs(edited, open, c);
  }

  lemma ClosedCallKept(source: string, edited: string, e: nat, start: nat, anchorEnd: nat, open: nat, end: nat)
    requires AgreeBefore(source, edited, e) && open + 1 < end <= e && anchorEnd <= e
    ensures ClosedCall(edited, start, anchorEnd, open, end) == ClosedCall(source, start, anchorEnd, open, end)
  {
    SamePart(source, edited, e, open + 1, end - 1);
    if end < anchorEnd {
      SamePart(source, edited, e, end, anchorEnd);
    }
    assert Slice(source, end, anchorEnd) == Slice(edited, end, anchorEnd);
  }

  lemma CallKept(source: string, edited: string, e: nat, call: Call, anchorEnd: nat)
    requires AgreeBefore(source, edited, e) && call.end <= e && anchorEnd <= e
    requires IsCall(source, call, anchorEnd)
    ensures IsCall(edited, call, anchorEnd)
  {
    OpeningKept(source, edited, e, call.start, anchorEnd, call.open);
    CloseAtKept(source, edited, e, call.open);
    ClosedCallKept(source, edited, e, call.start, anchorEnd, call.open, call.end);
  }

  /** A site accepted on the source, before all edits made so far, is accepted with the same edit. */
  lemma PlanKept(source: string, es: seq<Edit>, site: Site, e: Edit, call: Call, body: (nat, nat), end: nat)
    requires Edits(source, es) && es != [] && e.end <= FirstStart(source, es)
    requires Accepted(source, site, e, call, body, end)
    ensures Plan(Replaced(source, 0, es), site) == Ok(e)
  {
    var edited, next := Replaced(source, 0, es), FirstStart(source, es);
    EditedAgrees(source, es);
    ExtentStartsAtAnchor(source, e.start, end);
    CallShape(source, call, end);
    SpanEndsBefore(source, call, end, next);
    OffsetLocal(source, edited, next, site.startLine, site.startColumn, false, e.start);
    OffsetLocal(source, edited, next, site.endLine, site.endColumn, true, end);
    BodyKept(source, es, site.function_, if e.end < end then end else e.end);
    CallKept(source, edited, next, call, end);
    CallIsExtent(edited, call, end);
    AcceptedPlans(edited, site, e, call, BodyOf(edited, site.function_).value, end);
  }

  // ----- all sites

  lemma AcceptedEdit(source: string, site: Site, e: Edit)
    requires site.template.Named() && Plan(source, site) == Ok(e)
    ensures e.start < e.end < |source| && source[e.start] == 'm'
    ensures Survivable(source, e)
    ensures e.text != "" && e.text[0] == '('
  {
    PlanInRange(source, site);
    BeginsWithM(source, e.start);
    var call, body, end := PlanAccepts(source, site);
    AcceptedSurvives(source, site, e, call, body, end);
    TextOpens(site.template, call.argument);
  }

  lemma BeginsWithM(source: string, start: nat)
    requires StartsWith(source, start, "malloc")
    ensures start < |source| && source[start] == 'm'
  {
    assert source[start..start + 6][0] == 'm';
  }

  lemma TextOpens(t: Template, argument: string)
    ensures var text := t.Before() + argument + t.After(); text != "" && text[0] == '('
  {
    assert t.Before()[0] == '(';
  }

  lemma OneMoreEdit(source: string, es: seq<Edit>, site: Site, e: Edit)
    requires Edits(source, es) && site.template.Named() && Plan(source, site) == Ok(e)
    requires e.end <= FirstStart(source, es)
    ensures Edits(source, es + [e])
    ensures Instrumented(Replaced(source, 0, es), site) == Ok(Replaced(source, 0, es + [e]))
  {
    AcceptedEdit(source, site, e);
    EditsExtend(source, es, e);
    PlanAgain(source, es, site, e);
    InstrumentedIs(Replaced(source, 0, es), site, e);
    SpliceOne(source, es, e);
  }

  lemma PlanAgain(source: string, es: seq<Edit>, site: Site, e: Edit)
    requires Edits(source, es) && Plan(source, site) == Ok(e) && e.end <= FirstStart(source, es)
    ensures Plan(Replaced(source, 0, es), site) == Ok(e)
  {
    if es == [] {
      assert source[0..] == source;
    } else {
      var call, body, end := PlanAccepts(source, site);
      PlanKept(source, es, site, e, call, body, end);
    }
  }

  lemma EditsExtend(source: string, es: seq<Edit>, e: Edit)
    requires Edits(source, es) && e.start < e.end <= FirstStart(source, es) && e.end < |source|
    requires source[e.start] == 'm' && Survivable(source, e) && e.text != "" && e.text[0] == '('
    ensures Edits(source, es + [e])
  {
    var all := es + [e];
    SeparateExtends(source, es, e);
    forall i | 0 <= i < |all|
      ensures Survivable(source, all[i])
      ensures all[i].start < |source| && source[all[i].start] == 'm' && all[i].text != "" && all[i].text[0] == '('
    {
      assert all[i] == if i < |es| then es[i] else e;
    }
  }

  lemma SeparateExtends(source: string, es: seq<Edit>, e: Edit)
    requires Separate(source, 0, es) && e.start <= e.end <= FirstStart(source, es)
    ensures Separate(source, 0, es + [e])
  {
    assert forall i :: 0 <= i < |es| ==> (es + [e])[i] == es[i];
  }

  lemma InstrumentedIs(text: string, site: Site, e: Edit)
    requires Plan(text, site) == Ok(e)
    ensures e.start <= e.end <= |text| && Instrumented(text, site) == Ok(Apply(text, e))
  {
    PlanInRange(text, site);
  }

  /** Making one more edit in the edited text is making it together with the others. */
  lemma SpliceOne(source: string, es: seq<Edit>, e: Edit)
    requires Separate(source, 0, es) && e.start <= e.end <= FirstStart(source, es)
    requires e.end <= |Replaced(source, 0, es)|
    ensures Separate(source, 0, es + [e])
    ensures Apply(Replaced(source, 0, es), e) == Replaced(source, 0, es + [e])
  {
    var edited := Replaced(source, 0, es);
    ReplacedPrefix(source, 0, e.end, es);
    var tail := Replaced(source, e.end, es);
    assert edited == source[0..e.end] + tail;
    assert edited[..e.start] == source[0..e.start];
    assert edited[e.end..] == tail;
    assert (es + [e])[..|es|] == es;
    Associate(source[0..e.start], e.text, tail);
  }

  /** Sites in descending order of where they start, as the generators sort them. */
  predicate Descending(sites: seq<Site>) {
    forall i, j :: 0 <= i < j < |sites| ==>
      || sites[j].startLine < sites[i].startLine
      || (sites[j].startLine == sites[i].startLine && sites[j].startColumn <= sites[i].startColumn)
  }

  /** No two calls meet. */
  predicate Apart(es: seq<Edit>) {
    forall i, j :: 0 <= i < j < |es| ==> es[j].end <= es[i].start || es[i].end <= es[j].start
  }

  /** Every site is accepted on the original source, with the edit given for it. */
  ghost predicate Planned(source: string, sites: seq<Site>, es: seq<Edit>) {
    && |sites| == |es|
    && forall i :: 0 <= i < |sites| ==> sites[i].template.Named() && Plan(source, sites[i]) == Ok(es[i])
  }

  lemma PlanStart(source: string, site: Site)
    requires Plan(source, site).Ok?
    ensures SourceOffset(source, site.startLine, site.startColumn, false) == Ok(Plan(source, site).value.start)
  {
    var call, body, end := PlanAccepts(source, site);
  }

  /** Sites sorted by line and column have calls sorted by offset. */
  lemma SortedApart(source: string, sites: seq<Site>, es: seq<Edit>)
    requires Planned(source, sites, es) && Descending(sites) && Apart(es)
    ensures Separate(source, 0, es)
  {
    forall i | 0 <= i < |es|
      ensures 0 <= es[i].start < es[i].end <= |source|
    {
      PlanInRange(source, sites[i]);
    }
    forall i, j | 0 <= i < j < |es|
      ensures es[j].end <= es[i].start
    {
      PlanStart(source, sites[i]);
      PlanStart(source, sites[j]);
      OffsetsIncrease(source, sites[i].startLine, sites[i].startColumn, es[i].start,
                      sites[j].startLine, sites[j].startColumn, es[j].start);
    }
  }

  /**
   * For disjoint calls, instrumenting them one after the other in descending order, with every
   * offset and body recomputed on the partly edited text, succeeds whenever each site would be
   * accepted on the original source, and replaces exactly the original calls, all at once.
   */
  lemma FoldIsSimultaneous(source: string, sites: seq<Site>, es: seq<Edit>)
    requires Planned(source, sites, es) && Descending(sites) && Apart(es)
    ensures Separate(source, 0, es)
    ensures Fold(source, sites) == Ok(Replaced(source, 0, es))
  {
    SortedApart(source, sites, es);
    FoldReplaces(source, sites, es);
  }

  lemma {:induction false} FoldReplaces(source: string, sites: seq<Site>, es: seq<Edit>)
    requires Planned(source, sites, es) && Separate(source, 0, es)
    ensures Fold(source, sites) == Ok(Replaced(source, 0, es))
    decreases |sites|
  {
    if sites == [] {
      assert source[0..] == source;
    } else {
      var n := |sites| - 1;
      FoldReplaces(source, sites[..n], es[..n]);
      PlannedEdits(source, sites[..n], es[..n]);
      SplitLast(sites);
      SplitLast(es);
      FoldOne(source, sites[..n], es[..n], sites[n], es[n]);
    }
  }

  lemma PlannedEdits(source: string, sites: seq<Site>, es: seq<Edit>)
    requires Planned(source, sites, es) && Separate(source, 0, es)
    ensures Edits(source, es)
  {
    forall i | 0 <= i < |es|
      ensures Survivable(source, es[i])
      ensures es[i].start < |source| && source[es[i].start] == 'm'
      ensures es[i].text != "" && es[i].text[0] == '('
    {
      AcceptedEdit(source, sites[i], es[i]);
    }
  }

  /** One more site on text in which the edits of those before it are made. */
  lemma FoldOne(source: string, sites: seq<Site>, es: seq<Edit>, site: Site, e: Edit)
    requires Edits(source, es) && Fold(source, sites) == Ok(Replaced(source, 0, es))
    requires site.template.Named() && Plan(source, site) == Ok(e) && e.end <= FirstStart(source, es)
    ensures Separate(source, 0, es + [e])
    ensures Fold(source, sites + [site]) == Ok(Replaced(source, 0, es + [e]))
  {
    OneMoreEdit(source, es, site, e);
    LastFold(source, sites + [site], Replaced(source, 0, es), Replaced(source, 0, es + [e]));
  }

  lemma LastFold(source: string, sites: seq<Site>, before: string, after: string)
    requires sites != [] && Fold(source, sites[..|sites| - 1]) == Ok(before)
    requires Instrumented(before, sites[|sites| - 1]) == Ok(after)
    ensures Fold(source, sites) == Ok(after)
  {
    assert Fold(source, sites) == Instrumented(before, sites[|sites| - 1]);
  }
}
