/** The attribute that keeps an instrumented function in one copy. */
module Noinline {
  import opened Texts
  import opened Results
  import opened SourceText
  import opened FunctionBodies
  import opened Names

  const MARKER: string := "__attribute__((noinline)) "

  /** `mark_precise_function_noinline`: the marker before the leftmost head, unless it is there. */
  function Marked(source: string, name: string): Result<string, Error> {
    MarkedWith(source, name, MARKER)
  }

  function MarkedWith(source: string, name: string, m: string): Result<string, Error> {
    var head :- FindHead(source, 0, name);
    var k := head.0;
    if |m| <= k && source[k - |m|..k] == m then Ok(source) else Ok(Inserted(source, k, m))
  }

  function Inserted(source: string, k: nat, m: string): string
    requires k <= |source|
  {
    source[..k] + (m + source[k..])
  }

  /** The loop over the functions of the precise allocations. */
  function MarkAll(source: string, names: seq<string>): Result<string, Error> {
    if names == [] then Ok(source)
    else
      var marked :- MarkAll(source, names[..|names| - 1]);
      Marked(marked, names[|names| - 1])
  }

  // ----- the marker contains no head

  /** A word, two opening parentheses, a word, two closing ones and a space: no head starts here. */
  predicate Fits(c: char, i: nat) {
    if i < 13 || 15 <= i < 23 then IsWord(c) else if i < 15 then c == '(' else if i < 25 then c == ')' else c == ' '
  }

  predicate FirstFit(m: string, n: nat) {
    n == 0 || (n <= |m| && FirstFit(m, n - 1) && Fits(m[n - 1], n - 1))
  }

  predicate Harmless(m: string) {
    |m| == 26 && FirstFit(m, 26)
  }

  lemma {:induction false} FirstFitMeans(m: string, n: nat)
    requires n <= |m|
    ensures FirstFit(m, n) <==> forall i :: 0 <= i < n ==> Fits(m[i], i)
  {
    if n > 0 {
      FirstFitMeans(m, n - 1);
    }
  }

  lemma HarmlessChars(m: string)
    requires Harmless(m)
    ensures m[13] == '(' && m[14] == '(' && m[23] == ')' && m[24] == ')' && m[25] == ' '
    ensures forall i :: 0 <= i < 13 || 15 <= i < 23 ==> IsWord(m[i])
  {
    FirstFitMeans(m, 26);
    assert Fits(m[13], 13) && Fits(m[14], 14) && Fits(m[23], 23) && Fits(m[24], 24) && Fits(m[25], 25);
    assert forall i :: 0 <= i < 13 || 15 <= i < 23 ==> Fits(m[i], i);
  }

  lemma MarkerIsHarmless()
    ensures Harmless(MARKER)
  {
    FirstFitMeans(MARKER, 26);
  }

  /** `t` is `s` with `m` inserted at `k`, character by character. */
  ghost predicate Insertion(s: string, k: nat, m: string, t: string) {
    && k <= |s| && |t| == |s| + |m|
    && (forall i {:trigger t[i]} :: 0 <= i < k ==> t[i] == s[i])
    && (forall i {:trigger t[i]} :: k <= i < k + |m| ==> t[i] == m[i - k])
    && (forall i {:trigger t[i]} :: k + |m| <= i < |t| ==> t[i] == s[i - |m|])
  }

  /** `m` stands at `k` in `t`. */
  ghost predicate MarkerIn(t: string, k: nat, m: string) {
    k + |m| <= |t| && forall i {:trigger t[i]} :: k <= i < k + |m| ==> t[i] == m[i - k]
  }

  lemma InsertedChars(s: string, k: nat, m: string)
    requires k <= |s|
    ensures Insertion(s, k, m, Inserted(s, k, m)) && MarkerIn(Inserted(s, k, m), k, m)
  {
  }

  lemma {:induction false} SkipSpacesStops(s: string, pos: nat, e: nat)
    requires pos <= e < |s| && !IsSpace(s[e])
    ensures SkipSpaces(s, pos) <= e
    decreases e - pos
  {
    if pos < e {
      SkipSpacesStops(s, pos + 1, e);
    }
  }

  /** Two texts with one tail skip alike in it. */
  lemma {:induction false} SkipSpacesTail(s: string, t: string, pos: nat, d: nat)
    requires pos <= |s| && |t| == |s| + d && forall i :: pos <= i < |s| ==> t[i + d] == s[i]
    ensures SkipSpaces(t, pos + d) == SkipSpaces(s, pos) + d
    decreases |s| - pos
  {
    if pos < |s| {
      assert t[pos + d] == s[pos];
      if IsSpace(s[pos]) {
        SkipSpacesTail(s, t, pos + 1, d);
      }
    }
  }

  lemma {:induction false} SkipToParenTail(s: string, t: string, pos: nat, d: nat)
    requires pos <= |s| && |t| == |s| + d && forall i :: pos <= i < |s| ==> t[i + d] == s[i]
    ensures SkipToParen(t, pos + d) == SkipToParen(s, pos) + d
    decreases |s| - pos
  {
    if pos < |s| {
      assert t[pos + d] == s[pos];
      if s[pos] != ')' {
        SkipToParenTail(s, t, pos + 1, d);
      }
    }
  }

  lemma ParametersTail(s: string, t: string, pos: nat, d: nat)
    requires pos <= |s| && |t| == |s| + d && forall i :: pos <= i < |s| ==> t[i + d] == s[i]
    ensures ParametersEnd(t, pos + d) == if ParametersEnd(s, pos) == 0 then 0 else ParametersEnd(s, pos) + d
  {
    SkipSpacesTail(s, t, pos, d);
    var p := SkipSpaces(s, pos);
    if p < |s| {
      assert t[p + d] == s[p];
      SkipToParenTail(s, t, p + 1, d);
      var q := SkipToParen(s, p + 1);
      if q < |s| {
        SkipSpacesTail(s, t, q + 1, d);
        var b := SkipSpaces(s, q + 1);
        assert b < |s| ==> t[b + d] == s[b];
      }
    }
  }

  lemma StopsHere(t: string, pos: nat)
    requires pos < |t| && !IsSpace(t[pos])
    ensures SkipSpaces(t, pos) == pos
  {
  }

  /** From the parenthesis of the marker no parameter list is reached. */
  lemma MarkerEndsList(t: string, k: nat, m: string, p: nat)
    requires MarkerIn(t, k, m) && Harmless(m) && p <= k + 22
    requires t[p] == '(' && forall i :: p < i < k ==> t[i] != ')'
    ensures ParametersEnd(t, p) == 0
  {
    HarmlessChars(m);
    StopsHere(t, p);
    SkipToParenStops(t, p + 1, k + 23);
    StopsHere(t, k + 24);
  }

  lemma SamePrefix(s: string, k: nat, m: string, t: string)
    requires Insertion(s, k, m, t)
    ensures t[..k] == s[..k]
  {
  }

  /** A parameter list that begins before the marker ends before it, or not at all. */
  lemma ListEndsBefore(t: string, k: nat, m: string, pos: nat)
    requires MarkerIn(t, k, m) && Harmless(m) && pos <= k
    ensures ParametersEnd(t, pos) <= k
  {
    HarmlessChars(m);
    assert t[k] == m[0];
    SkipSpacesStops(t, pos, k);
    var p := SkipSpaces(t, pos);
    if p < k && t[p] == '(' {
      var q := SkipToParen(t, p + 1);
      if q < k {
        SkipSpacesStops(t, q + 1, k);
      } else {
        MarkerEndsList(t, k, m, p);
        SkipsTo(t, pos, p);
      }
    }
  }

  /** A parameter list is that of its opening parenthesis. */
  lemma SkipsTo(s: string, pos: nat, p: nat)
    requires pos <= |s| && SkipSpaces(s, pos) == p < |s| && !IsSpace(s[p])
    ensures ParametersEnd(s, pos) == ParametersEnd(s, p)
  {
    StopsHere(s, p);
  }

  /** A word begins at `k`. */
  predicate BeginsWord(s: string, k: nat) {
    k < |s| && IsWord(s[k]) && (k > 0 ==> !IsWord(s[k - 1]))
  }

  /** The name of a head begins a word. */
  lemma HeadBeginsWord(s: string, k: nat, name: string)
    requires name != "" && IsIdentifier(name) && k <= |s| && HeadEnd(s, k, name) > 0
    ensures k + |name| <= |s| && s[k] == name[0] && BeginsWord(s, k)
  {
    assert s[k..k + |name|][0] == s[k];
  }

  /** No head spans the start of the marker. */
  lemma HeadEndsBefore(t: string, k: nat, m: string, name: string, j: nat)
    requires MarkerIn(t, k, m) && Harmless(m) && IsIdentifier(name) && j < k
    ensures HeadEnd(t, j, name) <= k
  {
    if StartsWith(t, j, name) {
      assert forall i :: 0 <= i < |name| ==> name[i] == t[j..j + |name|][i] == t[j + i];
      if j + |name| <= k {
        ListEndsBefore(t, k, m, j + |name|);
      } else {
        NoListInMarker(t, k, m, name, j);
      }
    }
  }

  /** A name that ends in the marker has no parameter list. */
  lemma NoListInMarker(t: string, k: nat, m: string, name: string, j: nat)
    requires MarkerIn(t, k, m) && Harmless(m) && name != "" && IsIdentifier(name)
    requires j < k + 26 && k < j + |name| <= |t| && forall i :: 0 <= i < |name| ==> name[i] == t[j + i]
    ensures ParametersEnd(t, j + |name|) == 0
  {
    WordInMarker(t, k, m, name, j);
    var pos := j + |name|;
    if pos == k + 13 {
      MarkerEndsList(t, k, m, pos);
    } else {
      StopsHere(t, pos);
    }
  }

  /** The heads before the marker are those that end there without it. */
  lemma HeadBefore(s: string, k: nat, m: string, t: string, name: string, j: nat)
    requires k <= |s| && t == Inserted(s, k, m) && Harmless(m) && IsIdentifier(name) && j < k
    ensures HeadEnd(t, j, name) == if HeadEnd(s, j, name) <= k then HeadEnd(s, j, name) else 0
  {
    InsertedChars(s, k, m);
    SamePrefix(s, k, m, t);
    HeadEndsBefore(t, k, m, name, j);
    if HeadEnd(t, j, name) > 0 {
      HeadLocal(t, s, j, name, k);
    } else if 0 < HeadEnd(s, j, name) <= k {
      HeadLocal(s, t, j, name, k);
    }
  }

  /** No head starts in the marker. */
  lemma NoHeadInside(t: string, k: nat, m: string, name: string, j: nat)
    requires MarkerIn(t, k, m) && Harmless(m) && name != "" && IsIdentifier(name) && k <= j < k + 26
    ensures HeadEnd(t, j, name) == 0
  {
    if StartsWith(t, j, name) {
      assert forall i :: 0 <= i < |name| ==> name[i] == t[j..j + |name|][i] == t[j + i];
      NoListInMarker(t, k, m, name, j);
    }
  }

  lemma NoHeadInserted(s: string, k: nat, m: string, t: string, name: string, j: nat)
    requires k <= |s| && t == Inserted(s, k, m) && Harmless(m) && name != "" && IsIdentifier(name) && k <= j < k + |m|
    ensures HeadEnd(t, j, name) == 0
  {
    InsertedChars(s, k, m);
    NoHeadInside(t, k, m, name, j);
  }

  /** A name that ends in the marker ends at a parenthesis, or inside a word. */
  lemma WordInMarker(t: string, k: nat, m: string, name: string, j: nat)
    requires MarkerIn(t, k, m) && Harmless(m) && name != "" && IsIdentifier(name)
    requires j < k + 26 && k < j + |name| <= |t| && forall i :: 0 <= i < |name| ==> name[i] == t[j + i]
    ensures var pos := j + |name|;
            pos < k + 24 && (t[pos] == '(' <==> pos == k + 13) && !IsSpace(t[pos])
  {
    HarmlessChars(m);
    assert forall i :: j <= i < j + |name| ==> t[i] == name[i - j] && IsWord(t[i]);
    assert j >= k ==> t[j] == m[j - k];
    var stop := if j < k + 13 then k + 13 else k + 23;
    assert t[stop] == m[stop - k] && !IsWord(t[stop]);
    assert t[j + |name|] == m[j + |name| - k];
  }

  lemma TailChars(s: string, t: string, pos: nat, d: nat)
    requires pos <= |s| && |t| == |s| + d && t[pos + d..] == s[pos..]
    ensures forall i :: pos <= i < |s| ==> t[i + d] == s[i]
  {
    forall i | pos <= i < |s|
      ensures t[i + d] == s[i]
    {
      assert t[pos + d..][i - pos] == s[pos..][i - pos];
    }
  }

  lemma ParametersShift(s: string, t: string, pos: nat, d: nat, pos': nat)
    requires pos <= |s| && |t| == |s| + d && pos' == pos + d && t[pos'..] == s[pos..]
    ensures ParametersEnd(t, pos') == Moved(ParametersEnd(s, pos), d)
  {
    TailChars(s, t, pos, d);
    ParametersTail(s, t, pos, d);
  }

  /** The end of a head, if there is one, `d` further on. */
  function Moved(e: nat, d: nat): nat {
    if e == 0 then 0 else e + d
  }

  /** The heads behind the marker are those that start there without it. */
  lemma HeadAfter(s: string, k: nat, m: string, t: string, name: string, j: nat)
    requires k <= j <= |s| && t == Inserted(s, k, m) && Harmless(m) && BeginsWord(s, k)
    ensures HeadEnd(t, j + |m|, name) == Moved(HeadEnd(s, j, name), |m|)
  {
    TailIsKept(s, k, m, t, j, j + |m|);
    BoundaryMoves(s, k, m, t, j);
    HeadShift(s, t, j, |m|, name);
  }

  /** In a common tail, heads are found alike where words begin alike. */
  lemma HeadShift(s: string, t: string, j: nat, d: nat, name: string)
    requires j <= |s| && |t| == |s| + d && t[j + d..] == s[j..]
    requires WordBoundary(t, j + d) == WordBoundary(s, j)
    ensures HeadEnd(t, j + d, name) == Moved(HeadEnd(s, j, name), d)
  {
    SameStart(s, t, j, d, name);
    if StartsWith(s, j, name) {
      ListAfterName(s, t, j, d, |name|);
    }
  }

  lemma ListAfterName(s: string, t: string, j: nat, d: nat, n: nat)
    requires j + n <= |s| && |t| == |s| + d && t[j + d..] == s[j..]
    ensures ParametersEnd(t, j + d + n) == Moved(ParametersEnd(s, j + n), d)
  {
    assert t[j + d..][n..] == t[j + d + n..] && s[j..][n..] == s[j + n..];
    ParametersShift(s, t, j + n, d, j + d + n);
  }

  lemma BoundaryMoves(s: string, k: nat, m: string, t: string, j: nat)
    requires k <= j <= |s| && t == Inserted(s, k, m) && Harmless(m) && BeginsWord(s, k)
    ensures j + |m| <= |t| && WordBoundary(t, j + |m|) == WordBoundary(s, j)
  {
    HarmlessChars(m);
    InsertedChars(s, k, m);
    assert t[k + 25] == m[25];
    assert j > k ==> t[j + 25] == s[j - 1];
    assert j < |s| ==> t[j + 26] == s[j];
  }

  lemma SameStart(s: string, t: string, j: nat, d: nat, name: string)
    requires j <= |s| && |t| == |s| + d && t[j + d..] == s[j..]
    ensures StartsWith(t, j + d, name) == StartsWith(s, j, name)
  {
    if j + |name| <= |s| {
      assert s[j..j + |name|] == s[j..][..|name|] && t[j + d..j + d + |name|] == t[j + d..][..|name|];
    }
  }

  /** `k` is where the leftmost head starts, and `e` where it ends. */
  ghost predicate Leftmost(s: string, name: string, k: nat, e: nat) {
    FindHead(s, 0, name) == Ok((k, e))
  }

  /** After marking, the leftmost head is the marked one, behind its marker. */
  lemma MarkedHead(s: string, m: string, t: string, name: string, k: nat, e: nat)
    requires Harmless(m) && name != "" && IsIdentifier(name) && Leftmost(s, name, k, e)
    requires k <= |s| && t == Inserted(s, k, m)
    ensures Leftmost(t, name, k + |m|, e + |m|)
  {
    LeftmostMeans(s, name, k, e);
    HeadMoves(s, k, m, t, name);
    NoEarlierHead(s, k, m, t, name);
    LeftmostIs(t, name, k + |m|, e + |m|);
  }

  lemma HeadMoves(s: string, k: nat, m: string, t: string, name: string)
    requires k <= |s| && t == Inserted(s, k, m) && Harmless(m) && name != "" && IsIdentifier(name)
    requires HeadEnd(s, k, name) > 0
    ensures HeadEnd(t, k + |m|, name) == HeadEnd(s, k, name) + |m|
  {
    HeadBeginsWord(s, k, name);
    HeadAfter(s, k, m, t, name, k);
  }

  lemma LeftmostMeans(s: string, name: string, k: nat, e: nat)
    requires Leftmost(s, name, k, e)
    ensures k <= |s| && HeadEnd(s, k, name) == e > 0 && k < e <= |s|
    ensures forall j :: 0 <= j < k ==> HeadEnd(s, j, name) == 0
  {
    FindHeadFirst(s, 0, name);
    FindHeadFinds(s, 0, name);
  }

  lemma LeftmostIs(s: string, name: string, k: nat, e: nat)
    requires k <= |s| && HeadEnd(s, k, name) == e > 0
    requires forall j :: 0 <= j < k ==> HeadEnd(s, j, name) == 0
    ensures Leftmost(s, name, k, e)
  {
    FindHeadIs(s, 0, name, k);
  }

  lemma NoEarlierHead(s: string, k: nat, m: string, t: string, name: string)
    requires k <= |s| && t == Inserted(s, k, m) && Harmless(m) && name != "" && IsIdentifier(name)
    requires forall j :: 0 <= j < k ==> HeadEnd(s, j, name) == 0
    ensures forall j :: 0 <= j < k + |m| ==> HeadEnd(t, j, name) == 0
  {
    forall j | 0 <= j < k + |m|
      ensures HeadEnd(t, j, name) == 0
    {
      if j < k {
        HeadBefore(s, k, m, t, name, j);
      } else {
        NoHeadInserted(s, k, m, t, name, j);
      }
    }
  }

  /** Marking a function twice marks it once. */
  lemma MarkedTwice(s: string, name: string)
    requires name != "" && IsIdentifier(name) && Marked(s, name).Ok?
    ensures Marked(Marked(s, name).value, name) == Marked(s, name)
  {
    MarkerIsHarmless();
    MarkedAgain(s, MARKER, name);
  }

  lemma MarkedAgain(s: string, m: string, name: string)
    requires Harmless(m) && name != "" && IsIdentifier(name) && MarkedWith(s, name, m).Ok?
    ensures MarkedWith(MarkedWith(s, name, m).value, name, m) == MarkedWith(s, name, m)
  {
    var (k, e) := FindHead(s, 0, name).value;
    var t := Inserted(s, k, m);
    MarkedHead(s, m, t, name, k, e);
    MarkerInPlace(s, k, m);
    KeepsMarker(t, m, name, k, e + |m|);
  }

  lemma KeepsMarker(t: string, m: string, name: string, k: nat, e: nat)
    requires Leftmost(t, name, k + |m|, e) && k + |m| <= |t| && t[k..k + |m|] == m
    ensures MarkedWith(t, name, m) == Ok(t)
  {
  }

  lemma MarkerInPlace(s: string, k: nat, m: string)
    requires k <= |s|
    ensures |Inserted(s, k, m)| >= k + |m| && Inserted(s, k, m)[k..k + |m|] == m
  {
  }

  /** Marking leaves the text as it is, or moves the body of the function by the length of the marker. */
  lemma MarkedBody(s: string, name: string)
    requires name != "" && IsIdentifier(name) && BodyOf(s, name).Ok?
    ensures Marked(s, name) == Ok(s) || exists t :: Marked(s, name) == Ok(t) && BodyMoves(s, t, name, |MARKER|)
  {
    BodyParts(s, name);
    MarkerIsHarmless();
    var k := FindHead(s, 0, name).value.0;
    MarkedIs(s, name);
    InsertedBody(s, k, MARKER, Inserted(s, k, MARKER), name);
  }

  /** The body of the function in `s` is its body in `t`, `d` further on. */
  ghost predicate BodyMoves(s: string, t: string, name: string, d: nat) {
    exists lo: nat, hi: nat :: BodyOf(s, name) == Ok((lo, hi)) && BodyMoved(s, t, name, lo, hi, d)
  }

  lemma InsertedBody(s: string, k: nat, m: string, t: string, name: string)
    requires Harmless(m) && name != "" && IsIdentifier(name) && BodyOf(s, name).Ok?
    requires FindHead(s, 0, name).Ok? && FindHead(s, 0, name).value.0 == k && t == Inserted(s, k, m)
    ensures BodyMoves(s, t, name, |m|)
  {
    BodyParts(s, name);
    var e, close := FindHead(s, 0, name).value.1, BodyOf(s, name).value.1;
    BodyAfterMarker(s, k, m, t, name, e, close);
    TailPart(s, k, m, t, e, close);
    assert BodyMoved(s, t, name, e, close, |m|);
  }

  /** The body at `lo..hi` of `s` is the body of the function in `t`, `d` further on. */
  ghost predicate BodyMoved(s: string, t: string, name: string, lo: nat, hi: nat, d: nat) {
    && BodyOf(t, name) == Ok((lo + d, hi + d))
    && lo <= hi <= |s| && hi + d <= |t| && t[lo + d..hi + d] == s[lo..hi]
  }

  lemma MarkedIs(s: string, name: string)
    requires FindHead(s, 0, name).Ok?
    ensures Marked(s, name) == Ok(s) || Marked(s, name) == Ok(Inserted(s, FindHead(s, 0, name).value.0, MARKER))
  {
  }

  lemma BodyAfterMarker(s: string, k: nat, m: string, t: string, name: string, e: nat, close: nat)
    requires Harmless(m) && name != "" && IsIdentifier(name) && Leftmost(s, name, k, e)
    requires k <= |s| && t == Inserted(s, k, m)
    requires e <= |s| && BodyClose(s, e, 1) == Ok(close + 1) && e <= close
    ensures BodyOf(t, name) == Ok((e + |m|, close + |m|))
  {
    LeftmostMeans(s, name, k, e);
    MarkedHead(s, m, t, name, k, e);
    InsertedClose(s, k, m, t, e);
    BodyIs(t, name, k + |m|, e + |m|, close + |m|);
  }

  lemma BodyIs(t: string, name: string, k: nat, e: nat, close: nat)
    requires e <= |t| && Leftmost(t, name, k, e) && BodyClose(t, e, 1) == Ok(close + 1)
    ensures BodyOf(t, name) == Ok((e, close))
  {
    BodyCloseMoves(t, e);
  }

  lemma InsertedClose(s: string, k: nat, m: string, t: string, e: nat)
    requires k <= |s| && t == Inserted(s, k, m) && k <= e <= |s| && BodyClose(s, e, 1).Ok?
    ensures BodyClose(t, e + |m|, 1) == Ok(BodyClose(s, e, 1).value + |m|)
  {
    InsertedChars(s, k, m);
    BodyTail(s, t, e, 1, |m|);
  }

  lemma TailIsKept(s: string, k: nat, m: string, t: string, pos: nat, pos': nat)
    requires k <= pos <= |s| && t == Inserted(s, k, m) && pos' == pos + |m|
    ensures |t| == |s| + |m| && t[pos'..] == s[pos..]
  {
  }

  lemma TailPart(s: string, k: nat, m: string, t: string, lo: nat, hi: nat)
    requires k <= |s| && t == Inserted(s, k, m) && k <= lo <= hi <= |s|
    ensures hi + |m| <= |t| && t[lo + |m|..hi + |m|] == s[lo..hi]
  {
    InsertedChars(s, k, m);
  }

  lemma {:induction false} BodyTail(s: string, t: string, pos: nat, depth: int, d: nat)
    requires pos <= |s| && depth >= 0 && |t| == |s| + d && forall i :: pos <= i < |s| ==> t[i + d] == s[i]
    ensures BodyClose(s, pos, depth).Ok? ==> BodyClose(t, pos + d, depth) == Ok(BodyClose(s, pos, depth).value + d)
    decreases |s| - pos
  {
    if depth > 0 && pos < |s| {
      assert t[pos + d] == s[pos];
      BodyTail(s, t, pos + 1, depth + Delta(s[pos]), d);
    }
  }

  // ----- sorted sets of names

  /** Strict order of strings, character by character. */
  predicate Precedes(a: string, b: string) {
    b != "" && (a == "" || a[0] < b[0] || (a[0] == b[0] && Precedes(a[1..], b[1..])))
  }

  lemma {:induction false} PrecedesTotal(a: string, b: string)
    ensures a == b || Precedes(a, b) || Precedes(b, a)
    ensures !(Precedes(a, b) && Precedes(b, a)) && !Precedes(a, a)
  {
    if a != "" && b != "" && a[0] == b[0] {
      PrecedesTotal(a[1..], b[1..]);
      assert a == [a[0]] + a[1..] && b == [b[0]] + b[1..];
    }
    if a != "" {
      PrecedesTotal(a[1..], a[1..]);
    }
  }

  lemma {:induction false} PrecedesOn(a: string, b: string, c: string)
    requires Precedes(a, b) && Precedes(b, c)
    ensures Precedes(a, c)
  {
    if a != "" && a[0] == b[0] == c[0] {
      PrecedesOn(a[1..], b[1..], c[1..]);
    }
  }

  predicate Ascending(names: seq<string>) {
    forall i, j :: 0 <= i < j < |names| ==> Precedes(names[i], names[j])
  }

  function InsertName(names: seq<string>, x: string): seq<string> {
    if names == [] then [x]
    else if names[0] == x then names
    else if Precedes(x, names[0]) then [x] + names
    else [names[0]] + InsertName(names[1..], x)
  }

  /** `sorted` of a set */
  function SortedNames(names: seq<string>): seq<string> {
    if names == [] then [] else InsertName(SortedNames(names[..|names| - 1]), names[|names| - 1])
  }

  lemma {:induction false} InsertAscending(names: seq<string>, x: string)
    requires Ascending(names)
    ensures Ascending(InsertName(names, x))
    ensures forall n :: n in InsertName(names, x) <==> n in names || n == x
  {
    if names != [] && names[0] != x {
      var rest := names[1..];
      assert names == [names[0]] + rest;
      assert forall n :: n in rest ==> exists j :: 1 <= j < |names| && names[j] == n;
      PrecedesTotal(x, names[0]);
      if Precedes(x, names[0]) {
        forall n | n in rest
          ensures Precedes(x, n)
        {
          PrecedesOn(x, names[0], n);
        }
        FirstAscending(x, names);
      } else {
        InsertAscending(rest, x);
        FirstAscending(names[0], InsertName(rest, x));
      }
    }
  }

  lemma FirstAscending(x: string, rest: seq<string>)
    requires Ascending(rest) && forall n :: n in rest ==> Precedes(x, n)
    ensures Ascending([x] + rest)
  {
    assert forall i :: 0 <= i < |rest| ==> rest[i] in rest;
  }

  /** Each name once, in order. */
  lemma {:induction false} NamesSorted(names: seq<string>)
    ensures Ascending(SortedNames(names))
    ensures forall n :: n in SortedNames(names) <==> n in names
  {
    if names != [] {
      var k := |names| - 1;
      NamesSorted(names[..k]);
      InsertAscending(SortedNames(names[..k]), names[k]);
      assert names == names[..k] + [names[k]];
    }
  }

  /** The loop that marks one function after the other. */
  method MarkFunctions(source: string, names: seq<string>) returns (r: Result<string, Error>)
    ensures r == MarkAll(source, names)
  {
    var marked := source;
    for i := 0 to |names|
      invariant MarkAll(source, names[..i]) == Ok(marked)
    {
      assert names[..i + 1][..i] == names[..i];
      var next := Marked(marked, names[i]);
      if next.Err? {
        MarkErrorStays(source, names, i + 1);
        return next;
      }
      marked := next.value;
    }
    assert names[..|names|] == names;
    return Ok(marked);
  }

  lemma {:induction false} MarkErrorStays(source: string, names: seq<string>, n: nat)
    requires n <= |names| && MarkAll(source, names[..n]).Err?
    ensures MarkAll(source, names) == MarkAll(source, names[..n])
    decreases |names|
  {
    if n < |names| {
      assert names[..|names| - 1][..n] == names[..n];
      MarkErrorStays(source, names[..|names| - 1], n);
    } else {
      assert names[..n] == names;
    }
  }
}
