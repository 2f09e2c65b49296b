/** How the generators find the body of a function: a pattern for its head, then brace counting. */
module FunctionBodies {
  import opened Texts
  import opened Results
  import opened SourceText

  // ----- brace counting

  function Delta(c: char): int {
    if c == '{' then 1 else if c == '}' then -1 else 0
  }

  /** Opening minus closing braces. */
  function Net(t: string): int {
    if t == "" then 0 else Delta(t[0]) + Net(t[1..])
  }

  /** A count that starts at `d` falls to 0 at some point of `t`. */
  predicate Hits(t: string, d: int) {
    d <= 0 || (t != "" && Hits(t[1..], d + Delta(t[0])))
  }

  lemma {:induction false} NetAppend(a: string, b: string)
    ensures Net(a + b) == Net(a) + Net(b)
  {
    if a == "" {
      assert a + b == b;
    } else {
      assert (a + b)[1..] == a[1..] + b;
      NetAppend(a[1..], b);
    }
  }

  lemma {:induction false} HitsAppend(a: string, b: string, d: int)
    ensures Hits(a + b, d) <==> Hits(a, d) || Hits(b, d + Net(a))
  {
    if a == "" {
      assert a + b == b;
    } else if d > 0 {
      assert (a + b)[1..] == a[1..] + b;
      HitsAppend(a[1..], b, d + Delta(a[0]));
    }
  }

  /** The number of opening braces less the number of closing ones. */
  lemma {:induction false} NetCounts(t: string)
    ensures Net(t) + multiset(t)['}'] == multiset(t)['{']
  {
    if t != "" {
      assert t == [t[0]] + t[1..];
      NetCounts(t[1..]);
    }
  }

  /** The count falls to 0 exactly when it does so after some part of the text. */
  lemma {:induction false} HitsMeans(t: string, d: int)
    requires d > 0
    ensures Hits(t, d) <==> exists n :: 0 <= n <= |t| && d + Net(t[..n]) == 0
  {
    if t == "" {
      assert forall n :: 0 <= n <= |t| ==> t[..n] == "";
    } else {
      var rest, d' := t[1..], d + Delta(t[0]);
      forall n | 0 < n <= |t|
        ensures Net(t[..n]) == Delta(t[0]) + Net(rest[..n - 1])
      {
        assert t[..n][1..] == rest[..n - 1];
      }
      assert Net(t[..0]) == 0;
      if d' > 0 {
        HitsMeans(rest, d');
        if n :| 0 <= n <= |rest| && d' + Net(rest[..n]) == 0 {
          assert d + Net(t[..n + 1]) == 0;
        }
      } else {
        assert rest[..0] == "" && d + Net(t[..1]) == 0;
      }
    }
  }

  lemma HitsOfThree(a: string, b: string, c: string, d: int)
    ensures Hits(a + (b + c), d) <==> Hits(a, d) || Hits(b, d + Net(a)) || Hits(c, d + Net(a) + Net(b))
  {
    HitsAppend(a, b + c, d);
    HitsAppend(b, c, d + Net(a));
  }

  lemma {:induction false} HitsLower(t: string, d: int, d': int)
    requires d' <= d && Hits(t, d)
    ensures Hits(t, d')
  {
    if d > 0 {
      HitsLower(t[1..], d + Delta(t[0]), d' + Delta(t[0]));
    }
  }

  /** Braces change the count one at a time, so it cannot jump over 0. */
  lemma {:induction false} FallingHits(t: string, d: int)
    requires d + Net(t) <= 0
    ensures Hits(t, d)
  {
    if d > 0 {
      FallingHits(t[1..], d + Delta(t[0]));
    }
  }

  /** The loop of `function_body`: the offset just after the brace that brings the count to 0. */
  function BodyClose(s: string, pos: nat, depth: int): (r: Result<nat, Error>)
    requires pos <= |s| && depth >= 0
    ensures r.Ok? ==> pos <= r.value <= |s|
    decreases |s| - pos
  {
    if depth == 0 then Ok(pos)
    else if pos == |s| then Err(UnterminatedFunction)
    else BodyClose(s, pos + 1, depth + Delta(s[pos]))
  }

  lemma {:induction false} BodyCloseFound(s: string, pos: nat, depth: int)
    requires pos <= |s| && depth >= 0
    ensures BodyClose(s, pos, depth).Ok? <==> Hits(s[pos..], depth)
    decreases |s| - pos
  {
    if depth > 0 && pos < |s| {
      assert s[pos..][1..] == s[pos + 1..];
      BodyCloseFound(s, pos + 1, depth + Delta(s[pos]));
    }
  }

  /** The count first reaches 0 where `BodyClose` says. */
  lemma {:induction false} BodyCloseFirst(s: string, pos: nat, depth: int, e: nat)
    requires pos <= e <= |s| && depth >= 0
    requires BodyClose(s, pos, depth).Ok?
    ensures BodyClose(s, pos, depth).value <= e <==> Hits(s[pos..e], depth)
    decreases |s| - pos
  {
    if depth > 0 && pos < e {
      assert s[pos..e][1..] == s[pos + 1..e];
      BodyCloseFirst(s, pos + 1, depth + Delta(s[pos]), e);
    }
  }

  // ----- the head of a function

  function SkipSpaces(s: string, pos: nat): (r: nat)
    requires pos <= |s|
    ensures pos <= r <= |s| && (r < |s| ==> !IsSpace(s[r]))
    ensures forall i :: pos <= i < r ==> IsSpace(s[i])
    decreases |s| - pos
  {
    if pos < |s| && IsSpace(s[pos]) then SkipSpaces(s, pos + 1) else pos
  }

  /** `[^)]*` */
  function SkipToParen(s: string, pos: nat): (r: nat)
    requires pos <= |s|
    ensures pos <= r <= |s| && (r < |s| ==> s[r] == ')')
    ensures forall i :: pos <= i < r ==> s[i] != ')'
    decreases |s| - pos
  {
    if pos < |s| && s[pos] != ')' then SkipToParen(s, pos + 1) else pos
  }

  lemma {:induction false} SkipToParenStops(s: string, pos: nat, e: nat)
    requires pos <= e < |s| && s[e] == ')' && forall i :: pos <= i < e ==> s[i] != ')'
    ensures SkipToParen(s, pos) == e
    decreases e - pos
  {
    if pos < e {
      SkipToParenStops(s, pos + 1, e);
    }
  }

  /** `\b` */
  predicate WordBoundary(s: string, i: nat)
    requires i <= |s|
  {
    (i > 0 && IsWord(s[i - 1])) != (i < |s| && IsWord(s[i]))
  }

  predicate StartsWith(s: string, i: nat, prefix: string) {
    i + |prefix| <= |s| && s[i..i + |prefix|] == prefix
  }

  /** End of a match of `\s*\([^)]*\)\s*\{` at `pos`, or 0. */
  function ParametersEnd(s: string, pos: nat): (r: nat)
    requires pos <= |s|
    ensures r <= |s| && (r > 0 ==> pos + 3 <= r && s[r - 1] == '{')
  {
    var p := SkipSpaces(s, pos);
    if p == |s| || s[p] != '(' then 0
    else
      var q := SkipToParen(s, p + 1);
      if q == |s| then 0
      else
        var b := SkipSpaces(s, q + 1);
        if b == |s| || s[b] != '{' then 0 else b + 1
  }

  /** End of a match of `\bNAME\s*\([^)]*\)\s*\{` at `i`, or 0. */
  function HeadEnd(s: string, i: nat, name: string): (r: nat)
    requires i <= |s|
    ensures r <= |s| && (r > 0 ==> i + |name| + 3 <= r && s[r - 1] == '{')
  {
    if WordBoundary(s, i) && StartsWith(s, i, name) then ParametersEnd(s, i + |name|) else 0
  }

  /** `re.search`: start and end of the leftmost match from `i` on. */
  function FindHead(s: string, i: nat, name: string): (r: Result<(nat, nat), Error>)
    requires i <= |s|
    ensures r.Ok? ==> i <= r.value.0 && r.value.0 + 3 <= r.value.1 <= |s|
    decreases |s| - i
  {
    if HeadEnd(s, i, name) > 0 then Ok((i, HeadEnd(s, i, name)))
    else if i == |s| then Err(FunctionNotFound)
    else FindHead(s, i + 1, name)
  }

  lemma {:induction false} FindHeadFinds(s: string, i: nat, name: string)
    requires i <= |s| && FindHead(s, i, name).Ok?
    ensures HeadEnd(s, FindHead(s, i, name).value.0, name) == FindHead(s, i, name).value.1
    decreases |s| - i
  {
    if HeadEnd(s, i, name) == 0 {
      FindHeadFinds(s, i + 1, name);
    }
  }

  lemma {:induction false} FoundFrom(s: string, i: nat, name: string, j: nat)
    requires i <= j <= |s| && HeadEnd(s, j, name) > 0
    ensures FindHead(s, i, name).Ok?
    decreases j - i
  {
    if i < j {
      FoundFrom(s, i + 1, name, j);
    }
  }

  lemma FindHeadFirst(s: string, i: nat, name: string)
    requires i <= |s| && FindHead(s, i, name).Ok?
    ensures forall j :: i <= j < FindHead(s, i, name).value.0 ==> HeadEnd(s, j, name) == 0
  {
    var k := FindHead(s, i, name).value.0;
    forall j | i <= j < k
      ensures HeadEnd(s, j, name) == 0
    {
      FindHeadPasses(s, i, name, j);
    }
  }

  lemma {:induction false} FindHeadPasses(s: string, i: nat, name: string, j: nat)
    requires i <= |s| && FindHead(s, i, name).Ok? && i <= j < FindHead(s, i, name).value.0
    ensures HeadEnd(s, j, name) == 0
    decreases j - i
  {
    if i < j {
      FindHeadPasses(s, i + 1, name, j);
    }
  }

  /** Start of the body, and offset of its closing brace. */
  function BodyOf(s: string, name: string): (r: Result<(nat, nat), Error>)
    ensures r.Ok? ==> 0 < r.value.0 <= r.value.1 < |s|
  {
    var head :- FindHead(s, 0, name);
    var close :- BodyClose(s, head.1, 1);
    BodyCloseMoves(s, head.1);
    Ok((head.1, close - 1))
  }

  /** What a found body says about the head and about the brace count. */
  lemma BodyParts(s: string, name: string)
    requires BodyOf(s, name).Ok?
    ensures var body := BodyOf(s, name).value;
            && FindHead(s, 0, name).Ok? && FindHead(s, 0, name).value.1 == body.0
            && BodyClose(s, body.0, 1) == Ok(body.1 + 1)
  {
    BodyCloseMoves(s, FindHead(s, 0, name).value.1);
  }

  lemma BodyCloseMoves(s: string, pos: nat)
    requires pos <= |s|
    ensures BodyClose(s, pos, 1).Ok? ==> pos < BodyClose(s, pos, 1).value
  {
  }

  /** `function_body`, with its counting loop. */
  method FunctionBody(s: string, name: string) returns (r: Result<(nat, nat), Error>)
    ensures r == BodyOf(s, name)
  {
    var head := FindHead(s, 0, name);
    if head.Err? {
      return Err(head.error);
    }
    BodyCloseMoves(s, head.value.1);
    var depth := 1;
    var pos := head.value.1;
    while pos < |s| && depth != 0
      invariant head.value.1 <= pos <= |s| && depth >= 0
      invariant BodyClose(s, head.value.1, 1) == BodyClose(s, pos, depth)
    {
      depth := depth + Delta(s[pos]);
      pos := pos + 1;
    }
    if depth != 0 {
      return Err(UnterminatedFunction);
    }
    return Ok((head.value.1, pos - 1));
  }

  // ----- later edits leave earlier heads alone

  lemma {:induction false} SkipSpacesLocal(s: string, s': string, pos: nat, e: nat)
    requires pos <= e <= |s| && e <= |s'| && s[..e] == s'[..e]
    ensures SkipSpaces(s, pos) < e ==> SkipSpaces(s', pos) == SkipSpaces(s, pos)
    ensures SkipSpaces(s, pos) >= e ==> SkipSpaces(s', pos) >= e
    decreases e - pos
  {
    if pos < e {
      SameChars(s, s', e);
      if IsSpace(s[pos]) {
        SkipSpacesLocal(s, s', pos + 1, e);
      }
    }
  }

  lemma {:induction false} SkipToParenLocal(s: string, s': string, pos: nat, e: nat)
    requires pos <= e <= |s| && e <= |s'| && s[..e] == s'[..e]
    ensures SkipToParen(s, pos) < e ==> SkipToParen(s', pos) == SkipToParen(s, pos)
    ensures SkipToParen(s, pos) >= e ==> SkipToParen(s', pos) >= e
    decreases e - pos
  {
    if pos < e {
      SameChars(s, s', e);
      if s[pos] != ')' {
        SkipToParenLocal(s, s', pos + 1, e);
      }
    }
  }

  lemma ParametersLocal(s: string, s': string, pos: nat, e: nat)
    requires e <= |s| && e <= |s'| && s[..e] == s'[..e] && pos <= e
    requires 0 < ParametersEnd(s, pos) <= e
    ensures ParametersEnd(s', pos) == ParametersEnd(s, pos)
  {
    SameChars(s, s', e);
    SkipSpacesLocal(s, s', pos, e);
    var p := SkipSpaces(s, pos);
    SkipToParenLocal(s, s', p + 1, e);
    var q := SkipToParen(s, p + 1);
    SkipSpacesLocal(s, s', q + 1, e);
  }

  /** A head that ends before an edit is a head after it. */
  lemma HeadLocal(s: string, s': string, i: nat, name: string, e: nat)
    requires e <= |s| && e <= |s'| && s[..e] == s'[..e] && i <= |s|
    requires 0 < HeadEnd(s, i, name) <= e
    ensures i <= |s'| && HeadEnd(s', i, name) == HeadEnd(s, i, name)
  {
    SameChars(s, s', e);
    ParametersLocal(s, s', i + |name|, e);
    SamePart(s, s', e, i, i + |name|);
  }

  /** Two heads of one name in order end in order: the earlier one ends no later. */
  lemma HeadsEndInOrder(s: string, j: nat, i: nat, name: string)
    requires j < i <= |s| && HeadEnd(s, j, name) > 0 && HeadEnd(s, i, name) > 0
    ensures HeadEnd(s, j, name) <= HeadEnd(s, i, name)
  {
    var pi := SkipSpaces(s, i + |name|);
    var qi := SkipToParen(s, pi + 1);
    var pj := SkipSpaces(s, j + |name|);
    var qj := SkipToParen(s, pj + 1);
    // `pj` is the first non-space after `j + |name|`, so it is not after the parenthesis `pi`.
    assert pj <= pi by {
      assert !IsSpace(s[pi]);
    }
    assert qj <= qi;
    var bj := SkipSpaces(s, qj + 1);
    if qj < qi {
      assert bj <= qi by {
        assert !IsSpace(s[qi]);
      }
    }
  }

  /** The leftmost head, when it ends before an edit, is found again after it. */
  lemma FindHeadLocal(s: string, s': string, name: string, e: nat)
    requires e <= |s| && e <= |s'| && s[..e] == s'[..e]
    requires FindHead(s, 0, name).Ok? && FindHead(s, 0, name).value.1 <= e
    ensures FindHead(s', 0, name) == FindHead(s, 0, name)
  {
    var (i, end) := FindHead(s, 0, name).value;
    FindHeadFirst(s, 0, name);
    FindHeadFinds(s, 0, name);
    HeadLocal(s, s', i, name, e);
    forall j | 0 <= j < i
      ensures HeadEnd(s', j, name) == 0
    {
      if HeadEnd(s', j, name) > 0 {
        HeadsEndInOrder(s', j, i, name);
        HeadLocal(s', s, j, name, e);
      }
    }
    FindHeadIs(s', 0, name, i);
  }

  lemma {:induction false} FindHeadIs(s: string, i: nat, name: string, k: nat)
    requires i <= k <= |s| && HeadEnd(s, k, name) > 0
    requires forall j :: i <= j < k ==> HeadEnd(s, j, name) == 0
    ensures FindHead(s, i, name) == Ok((k, HeadEnd(s, k, name)))
    decreases k - i
  {
    if i < k {
      FindHeadIs(s, i + 1, name, k);
    }
  }
}
