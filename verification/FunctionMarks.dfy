/** What marking one function does to the heads of all others, and when every function ends up marked. */
module FunctionMarks {
  import opened Texts
  import opened Results
  import opened SourceText
  import opened FunctionBodies
  import opened Names
  import opened Noinline

  predicate IsName(name: string) {
    name != "" && IsIdentifier(name)
  }

  /** The marker stands right before the leftmost head of the function, which is at `k..e`. */
  ghost predicate MarkedAt(s: string, m: string, name: string, k: nat, e: nat) {
    Leftmost(s, name, k, e) && StandsBefore(m, s, k)
  }

  /** `m` ends at `k`, read backwards. */
  predicate StandsBefore(m: string, s: string, k: nat) {
    m == "" || (0 < k <= |s| && s[k - 1] == m[|m| - 1] && StandsBefore(m[..|m| - 1], s, k - 1))
  }

  lemma {:induction false} StandsBeforeMeans(m: string, s: string, k: nat)
    requires k <= |s|
    ensures StandsBefore(m, s, k) <==> |m| <= k && s[k - |m|..k] == m
  {
    if m != "" && k > 0 {
      StandsBeforeMeans(m[..|m| - 1], s, k - 1);
      if |m| <= k {
        assert s[k - |m|..k] == s[k - |m|..k - 1] + [s[k - 1]];
        SplitLast(m);
      }
    }
  }

  ghost predicate IsMarked(s: string, name: string) {
    exists k, e :: MarkedAt(s, MARKER, name, k, e)
  }

  /** The function has a head at `j`. */
  predicate HeadAt(s: string, name: string, j: nat) {
    j <= |s| && HeadEnd(s, j, name) > 0
  }

  /** Marking fails exactly without a head. */
  lemma MarkingFails(s: string, name: string)
    ensures Marked(s, name).Err? <==> forall j: nat :: !HeadAt(s, name, j)
  {
    HeadFound(s, name);
  }

  /** Marking leaves exactly the marked functions alone, and marks any other. */
  lemma MarkedIsMarked(s: string, name: string)
    requires IsName(name)
    ensures Marked(s, name) == Ok(s) <==> IsMarked(s, name)
    ensures Marked(s, name).Ok? ==> IsMarked(Marked(s, name).value, name)
  {
    if Marked(s, name).Ok? {
      var (k, e) := FindHead(s, 0, name).value;
      MarkerIsHarmless();
      MarkedOnce(s, MARKER, name, k, e);
      var t := Marked(s, name).value;
      if t == s {
        assert MarkedAt(t, MARKER, name, k, e);
      } else {
        assert MarkedAt(t, MARKER, name, k + |MARKER|, e + |MARKER|);
      }
    }
  }

  /** The marker is put right before the leftmost head, unless it stands there. */
  lemma MarkedOnce(s: string, m: string, name: string, k: nat, e: nat)
    requires Harmless(m) && IsName(name) && Leftmost(s, name, k, e)
    ensures k <= |s|
    ensures MarkedAt(s, m, name, k, e) ==> MarkedWith(s, name, m) == Ok(s)
    ensures !MarkedAt(s, m, name, k, e) ==>
              && MarkedWith(s, name, m) == Ok(s[..k] + m + s[k..])
              && MarkedAt(s[..k] + m + s[k..], m, name, k + |m|, e + |m|)
  {
    LeftmostMeans(s, name, k, e);
    StandsBeforeMeans(m, s, k);
    if !MarkedAt(s, m, name, k, e) {
      var t := Inserted(s, k, m);
      assert t == s[..k] + m + s[k..];
      MarkedHead(s, m, t, name, k, e);
      MarkerInPlace(s, k, m);
      StandsBeforeMeans(m, t, k + |m|);
    }
  }

  lemma HeadFound(s: string, name: string)
    ensures FindHead(s, 0, name).Ok? <==> exists j: nat :: HeadAt(s, name, j)
  {
    forall j: nat | HeadAt(s, name, j)
      ensures FindHead(s, 0, name).Ok?
    {
      FoundFrom(s, 0, name, j);
    }
    if FindHead(s, 0, name).Ok? {
      FindHeadFinds(s, 0, name);
      assert HeadAt(s, name, FindHead(s, 0, name).value.0);
    }
  }

  // ----- heads after an insertion

  /** A marker is inserted where a word begins. */
  ghost predicate MarkerInserted(s: string, q: nat, m: string, t: string) {
    Harmless(m) && BeginsWord(s, q) && t == Inserted(s, q, m)
  }

  /** Every head of the marked text was there before, at the same place or before the marker was put in. */
  lemma HeadOrigin(s: string, q: nat, m: string, t: string, name: string, j: nat)
    requires MarkerInserted(s, q, m, t) && IsName(name) && HeadAt(t, name, j)
    ensures j < q || q + |m| <= j
    ensures HeadAt(s, name, if j < q then j else j - |m|)
  {
    HeadOutside(s, q, m, t, name, j);
    if j < q {
      OriginBefore(s, q, m, t, name, j);
    } else {
      OriginBehind(s, q, m, t, name, j - |m|);
    }
  }

  lemma HeadOutside(s: string, q: nat, m: string, t: string, name: string, j: nat)
    requires MarkerInserted(s, q, m, t) && IsName(name) && HeadAt(t, name, j)
    ensures j < q || q + |m| <= j
  {
    if q <= j < q + |m| {
      NoHeadInserted(s, q, m, t, name, j);
    }
  }

  lemma OriginBefore(s: string, q: nat, m: string, t: string, name: string, j: nat)
    requires MarkerInserted(s, q, m, t) && IsName(name) && HeadAt(t, name, j) && j < q
    ensures HeadAt(s, name, j)
  {
    HeadBefore(s, q, m, t, name, j);
  }

  lemma OriginBehind(s: string, q: nat, m: string, t: string, name: string, i: nat)
    requires MarkerInserted(s, q, m, t) && IsName(name) && HeadAt(t, name, i + |m|) && q <= i
    ensures HeadAt(s, name, i)
  {
    HeadAfter(s, q, m, t, name, i);
  }

  /** And every head that does not span the place of the marker is still there. */
  lemma HeadKept(s: string, q: nat, m: string, t: string, name: string, j: nat)
    requires MarkerInserted(s, q, m, t) && IsName(name) && HeadAt(s, name, j)
    ensures q <= j ==> HeadAt(t, name, j + |m|)
    ensures j < q ==> (HeadAt(t, name, j) <==> HeadEnd(s, j, name) <= q)
  {
    if j < q {
      HeadBefore(s, q, m, t, name, j);
    } else {
      HeadAfter(s, q, m, t, name, j);
    }
  }

  /** The leftmost head behind the marker moves with it. */
  lemma LeftmostMoves(s: string, q: nat, m: string, t: string, name: string, k: nat, e: nat)
    requires MarkerInserted(s, q, m, t) && IsName(name) && Leftmost(s, name, k, e) && q <= k
    ensures Leftmost(t, name, k + |m|, e + |m|)
  {
    LeftmostMeans(s, name, k, e);
    HeadAfter(s, q, m, t, name, k);
    forall j | 0 <= j < k + |m|
      ensures HeadEnd(t, j, name) == 0
    {
      if HeadEnd(t, j, name) > 0 {
        HeadOrigin(s, q, m, t, name, j);
      }
    }
    LeftmostIs(t, name, k + |m|, e + |m|);
  }

  /** The leftmost head stays when it ends before the marker, and is lost when the marker is inside. */
  lemma LeftmostStays(s: string, q: nat, m: string, t: string, name: string, k: nat, e: nat)
    requires MarkerInserted(s, q, m, t) && IsName(name) && Leftmost(s, name, k, e) && k < q
    ensures e <= q ==> Leftmost(t, name, k, e)
    ensures q < e ==> !HeadAt(t, name, k)
  {
    LeftmostMeans(s, name, k, e);
    if e <= q {
      InsertedChars(s, q, m);
      SamePrefix(s, q, m, t);
      FindHeadLocal(s, t, name, q);
    } else {
      HeadBefore(s, q, m, t, name, k);
    }
  }

  // ----- marks and other heads

  /** No head spans the place of a mark that is there already. */
  lemma NothingSpansMark(s: string, name: string, k: nat, e: nat, other: string, j: nat)
    requires IsName(name) && IsName(other) && MarkedAt(s, MARKER, other, k, e) && j <= |s|
    ensures !(j < k < HeadEnd(s, j, name))
    ensures k - |MARKER| <= j < k ==> HeadEnd(s, j, name) == 0
  {
    MarkerIsHarmless();
    LeftmostMeans(s, other, k, e);
    MarkStands(s, MARKER, k);
    if j < k - |MARKER| {
      HeadEndsBefore(s, k - |MARKER|, MARKER, name, j);
    } else if j < k {
      NoHeadInside(s, k - |MARKER|, MARKER, name, j);
    }
  }

  lemma MarkStands(s: string, m: string, k: nat)
    requires k <= |s| && StandsBefore(m, s, k)
    ensures |m| <= k && MarkerIn(s, k - |m|, m)
  {
    StandsBeforeMeans(m, s, k);
    assert forall i :: 0 <= i < |m| ==> m[i] == s[k - |m|..k][i] == s[k - |m| + i];
  }

  /** Marking `g` puts the marker before its leftmost head, where a word begins. */
  lemma MarkingInserts(s: string, g: string, q: nat, e: nat)
    requires IsName(g) && Leftmost(s, g, q, e) && !MarkedAt(s, MARKER, g, q, e)
    ensures q <= |s| && Marked(s, g) == Ok(Inserted(s, q, MARKER))
    ensures MarkerInserted(s, q, MARKER, Inserted(s, q, MARKER))
  {
    MarkerIsHarmless();
    MarkedOnce(s, MARKER, g, q, e);
    LeftmostMeans(s, g, q, e);
    HeadBeginsWord(s, q, g);
    assert s[..q] + MARKER + s[q..] == Inserted(s, q, MARKER);
  }

  /** A mark stays before its head when another marker is inserted outside both. */
  lemma MarkMoves(s: string, q: nat, m: string, t: string, f: string, k: nat, e: nat)
    requires MarkerInserted(s, q, m, t) && IsName(f) && MarkedAt(s, m, f, k, e)
    requires q + |m| <= k || e <= q
    ensures q + |m| <= k ==> MarkedAt(t, m, f, k + |m|, e + |m|)
    ensures e <= q ==> MarkedAt(t, m, f, k, e)
  {
    LeftmostMeans(s, f, k, e);
    StandsBeforeMeans(m, s, k);
    if q + |m| <= k {
      LeftmostMoves(s, q, m, t, f, k, e);
      TailPart(s, q, m, t, k - |m|, k);
      StandsBeforeMeans(m, t, k + |m|);
    } else {
      LeftmostStays(s, q, m, t, f, k, e);
      InsertedChars(s, q, m);
      SamePrefix(s, q, m, t);
      SamePart(s, t, q, k - |m|, k);
      StandsBeforeMeans(m, t, k);
    }
  }

  /** Heads of different functions start at different places. */
  lemma HeadsDiffer(s: string, f: string, g: string, k: nat)
    requires IsName(f) && IsName(g) && HeadAt(s, f, k) && HeadAt(s, g, k)
    ensures f == g
  {
    HeadNameEnds(s, f, k);
    HeadNameEnds(s, g, k);
    NamesAgree(s[k..], f, g);
  }

  lemma NamesAgree(t: string, f: string, g: string)
    requires IsIdentifier(f) && IsIdentifier(g)
    requires |f| < |t| && t[..|f|] == f && !IsWord(t[|f|])
    requires |g| < |t| && t[..|g|] == g && !IsWord(t[|g|])
    ensures f == g
  {
    NotLonger(t, f, g);
    NotLonger(t, g, f);
  }

  /** An identifier at the start of a text does not go on beyond a word that ends there. */
  lemma NotLonger(t: string, f: string, g: string)
    requires |f| < |t| && !IsWord(t[|f|]) && IsIdentifier(g) && |g| < |t| && t[..|g|] == g
    ensures |g| <= |f|
  {
    assert forall i :: 0 <= i < |g| ==> t[i] == t[..|g|][i] && IsWord(t[i]);
  }

  lemma HeadNameEnds(s: string, f: string, k: nat)
    requires IsName(f) && HeadAt(s, f, k)
    ensures k + |f| < |s| && s[k..][..|f|] == f && !IsWord(s[k..][|f|])
  {
    ListBeginsOutsideWord(s, k + |f|);
    assert s[k..][..|f|] == s[k..k + |f|];
  }

  lemma ListBeginsOutsideWord(s: string, pos: nat)
    requires pos < |s|
    ensures ParametersEnd(s, pos) > 0 ==> !IsWord(s[pos])
  {
    if IsWord(s[pos]) {
      StopsHere(s, pos);
    }
  }

  /**
   * Marking `g` keeps the mark of another function, moved by `d`, exactly when the head of `g`
   * does not start inside the marked head.
   */
  lemma MarkKept(s: string, f: string, g: string, k: nat, e: nat, q: nat, eg: nat) returns (t: string, d: nat)
    requires IsName(f) && IsName(g) && f != g
    requires MarkedAt(s, MARKER, f, k, e) && Leftmost(s, g, q, eg)
    ensures Marked(s, g) == Ok(t)
    ensures !(k < q < e) ==> MarkedAt(t, MARKER, f, k + d, e + d)
    ensures k < q < e ==> !HeadAt(t, f, k)
  {
    if MarkedAt(s, MARKER, g, q, eg) {
      t, d := s, 0;
      MarkerIsHarmless();
      MarkedOnce(s, MARKER, g, q, eg);
      MarkIsNotSpanned(s, f, g, k, e, q, eg);
    } else {
      t := Inserted(s, q, MARKER);
      MarkingInserts(s, g, q, eg);
      HeadOutsideMark(s, f, g, k, e, q, eg);
      d := MarkMovesOrIsLost(s, q, MARKER, t, f, k, e);
    }
  }

  /** The head of another function does not start in the marker of `f`, nor where `f` itself does. */
  lemma HeadOutsideMark(s: string, f: string, g: string, k: nat, e: nat, q: nat, eg: nat)
    requires IsName(f) && IsName(g) && f != g
    requires MarkedAt(s, MARKER, f, k, e) && Leftmost(s, g, q, eg)
    ensures q + |MARKER| <= k || k < q
  {
    LeftmostMeans(s, f, k, e);
    LeftmostMeans(s, g, q, eg);
    if q == k {
      HeadsDiffer(s, f, g, k);
    }
    NothingSpansMark(s, g, k, e, f, q);
  }

  lemma MarkIsNotSpanned(s: string, f: string, g: string, k: nat, e: nat, q: nat, eg: nat)
    requires IsName(f) && IsName(g) && Leftmost(s, f, k, e) && MarkedAt(s, MARKER, g, q, eg)
    ensures !(k < q < e)
  {
    LeftmostMeans(s, f, k, e);
    NothingSpansMark(s, f, q, eg, g, k);
  }

  lemma MarkMovesOrIsLost(s: string, q: nat, m: string, t: string, f: string, k: nat, e: nat) returns (d: nat)
    requires MarkerInserted(s, q, m, t) && IsName(f) && MarkedAt(s, m, f, k, e)
    requires q + |m| <= k || k < q
    ensures !(k < q < e) ==> MarkedAt(t, m, f, k + d, e + d)
    ensures k < q < e ==> !HeadAt(t, f, k)
  {
    d := if q < k then |m| else 0;
    if k < q < e {
      LeftmostStays(s, q, m, t, f, k, e);
    } else {
      LeftmostMeans(s, f, k, e);
      MarkMoves(s, q, m, t, f, k, e);
    }
  }

  // ----- the loop over all functions

  /** Both functions have a head, and the leftmost of `g` does not start inside the leftmost of `f`. */
  predicate Clear(s: string, f: string, g: string) {
    var hf, hg := FindHead(s, 0, f), FindHead(s, 0, g);
    hf.Ok? && hg.Ok? && !(hf.value.0 < hg.value.0 < hf.value.1)
  }

  /** No head of one function starts inside that of another. */
  predicate HeadsApart(s: string, names: seq<string>) {
    forall f, g :: f in names && g in names ==> Clear(s, f, g)
  }

  predicate AllNames(names: seq<string>) {
    forall f :: f in names ==> IsName(f)
  }

  ghost predicate AllMarked(s: string, names: seq<string>) {
    forall f :: f in names ==> IsMarked(s, f)
  }

  /** Two heads apart stay apart when a marker is put where a third function's head starts. */
  lemma StaysClear(s: string, q: nat, m: string, t: string, f: string, g: string)
    requires MarkerInserted(s, q, m, t) && IsName(f) && IsName(g) && Clear(s, f, g)
    requires var (k, e) := FindHead(s, 0, f).value; !(k < q < e)
    requires var (k, e) := FindHead(s, 0, g).value; !(k < q < e)
    ensures Clear(t, f, g)
  {
    var df := LeftmostGoesOn(s, q, m, t, f);
    var dg := LeftmostGoesOn(s, q, m, t, g);
  }

  /** The leftmost head of `f`, when it does not span the place, is moved or not. */
  lemma LeftmostGoesOn(s: string, q: nat, m: string, t: string, f: string) returns (d: nat)
    requires MarkerInserted(s, q, m, t) && IsName(f) && FindHead(s, 0, f).Ok?
    requires var (k, e) := FindHead(s, 0, f).value; !(k < q < e)
    ensures var (k, e) := FindHead(s, 0, f).value;
            && FindHead(t, 0, f) == Ok((k + d, e + d))
            && d == if q <= k then |m| else 0
  {
    var (k, e) := FindHead(s, 0, f).value;
    if q <= k {
      d := |m|;
      LeftmostMoves(s, q, m, t, f, k, e);
    } else {
      d := 0;
      LeftmostStays(s, q, m, t, f, k, e);
    }
  }

  /** Marking one of the functions keeps all heads apart and all marks. */
  lemma MarkOne(s: string, names: seq<string>, g: string) returns (t: string)
    requires AllNames(names) && HeadsApart(s, names) && g in names
    ensures Marked(s, g) == Ok(t) && HeadsApart(t, names) && IsMarked(t, g)
    ensures forall f :: f in names && IsMarked(s, f) ==> IsMarked(t, f)
  {
    assert Clear(s, g, g);
    var (q, e) := FindHead(s, 0, g).value;
    MarkedIsMarked(s, g);
    if MarkedAt(s, MARKER, g, q, e) {
      t := s;
    } else {
      t := Inserted(s, q, MARKER);
      MarkingInserts(s, g, q, e);
      forall f, h | f in names && h in names
        ensures Clear(t, f, h)
      {
        assert Clear(s, f, h) && Clear(s, f, g) && Clear(s, h, g);
        StaysClear(s, q, MARKER, t, f, h);
      }
      forall f | f in names && f != g && IsMarked(s, f)
        ensures IsMarked(t, f)
      {
        assert Clear(s, f, g);
        OtherStaysMarked(s, f, g, t);
      }
    }
  }

  lemma OtherStaysMarked(s: string, f: string, g: string, t: string)
    requires IsName(f) && IsName(g) && f != g && IsMarked(s, f) && Clear(s, f, g) && Marked(s, g) == Ok(t)
    ensures IsMarked(t, f)
  {
    var k, e :| MarkedAt(s, MARKER, f, k, e);
    var (q, eg) := FindHead(s, 0, g).value;
    var u, d := MarkKept(s, f, g, k, e, q, eg);
    assert MarkedAt(u, MARKER, f, k + d, e + d);
  }

  lemma MarkAllStep(s: string, names: seq<string>, u: string, t: string)
    requires names != [] && MarkAll(s, names[..|names| - 1]) == Ok(u) && Marked(u, names[|names| - 1]) == Ok(t)
    ensures MarkAll(s, names) == Ok(t)
  {
  }

  lemma AllMarkedStep(u: string, t: string, names: seq<string>)
    requires names != [] && AllMarked(u, names[..|names| - 1]) && IsMarked(t, names[|names| - 1])
    requires forall f :: f in names && IsMarked(u, f) ==> IsMarked(t, f)
    ensures AllMarked(t, names)
  {
    assert forall f :: f in names ==> f in names[..|names| - 1] || f == names[|names| - 1];
  }

  /**
   * When no head of one function starts inside that of another, the loop succeeds and leaves
   * every function marked.
   */
  lemma {:induction false} EveryFunctionMarked(s: string, names: seq<string>, all: seq<string>) returns (t: string)
    requires AllNames(all) && HeadsApart(s, all) && forall f :: f in names ==> f in all
    ensures MarkAll(s, names) == Ok(t) && HeadsApart(t, all) && AllMarked(t, names)
    decreases |names|
  {
    if names == [] {
      t := s;
    } else {
      var n := |names| - 1;
      var u := EveryFunctionMarked(s, names[..n], all);
      t := MarkOne(u, all, names[n]);
      MarkAllStep(s, names, u, t);
      AllMarkedStep(u, t, names);
    }
  }

  // ----- and when heads are nested

  /** The name has at most one head. */
  ghost predicate OneHead(s: string, name: string) {
    forall i: nat, j: nat :: HeadAt(s, name, i) && HeadAt(s, name, j) ==> i == j
  }

  /** A function without a head, or whose head holds the start of the head of `g`, or such a `g`. */
  predicate Doomed(s: string, f: string, g: string) {
    var hf, hg := FindHead(s, 0, f), FindHead(s, 0, g);
    hf.Err? || hg.Err? || hf.value.0 < hg.value.0 < hf.value.1
  }

  /** Putting in a marker creates no second head. */
  lemma OneHeadStays(s: string, q: nat, m: string, t: string, f: string)
    requires MarkerInserted(s, q, m, t) && IsName(f) && OneHead(s, f)
    ensures OneHead(t, f)
  {
    forall i: nat, j: nat | HeadAt(t, f, i) && HeadAt(t, f, j)
      ensures i == j
    {
      HeadOrigin(s, q, m, t, f, i);
      HeadOrigin(s, q, m, t, f, j);
    }
  }

  /** Nor a first one. */
  lemma NoHeadStays(s: string, q: nat, m: string, t: string, f: string)
    requires MarkerInserted(s, q, m, t) && IsName(f) && FindHead(s, 0, f).Err?
    ensures FindHead(t, 0, f).Err?
  {
    HeadFound(s, f);
    HeadFound(t, f);
    forall j: nat | HeadAt(t, f, j)
      ensures exists i: nat :: HeadAt(s, f, i)
    {
      HeadOrigin(s, q, m, t, f, j);
    }
  }

  /** An only head is lost when a marker is put inside it. */
  lemma OnlyHeadLost(s: string, q: nat, m: string, t: string, f: string, k: nat, e: nat)
    requires MarkerInserted(s, q, m, t) && IsName(f) && OneHead(s, f)
    requires Leftmost(s, f, k, e) && k < q < e
    ensures FindHead(t, 0, f).Err?
  {
    LeftmostMeans(s, f, k, e);
    LeftmostStays(s, q, m, t, f, k, e);
    HeadFound(t, f);
    forall j: nat
      ensures !HeadAt(t, f, j)
    {
      NoOtherHead(s, q, m, t, f, k, j);
    }
  }

  lemma NoOtherHead(s: string, q: nat, m: string, t: string, f: string, k: nat, j: nat)
    requires MarkerInserted(s, q, m, t) && IsName(f) && OneHead(s, f)
    requires HeadAt(s, f, k) && k < q && !HeadAt(t, f, k)
    ensures !HeadAt(t, f, j)
  {
    if HeadAt(t, f, j) {
      HeadOrigin(s, q, m, t, f, j);
    }
  }

  /** Whatever is marked next, doomed functions stay doomed. */
  lemma DoomStays(s: string, q: nat, m: string, t: string, f: string, g: string)
    requires MarkerInserted(s, q, m, t) && IsName(f) && IsName(g) && OneHead(s, f) && OneHead(s, g)
    requires Doomed(s, f, g)
    ensures Doomed(t, f, g)
  {
    var hf, hg := FindHead(s, 0, f), FindHead(s, 0, g);
    if hf.Err? {
      NoHeadStays(s, q, m, t, f);
    } else if hg.Err? {
      NoHeadStays(s, q, m, t, g);
    } else if hf.value.0 < q < hf.value.1 {
      OnlyHeadLost(s, q, m, t, f, hf.value.0, hf.value.1);
    } else if hg.value.0 < q < hg.value.1 {
      OnlyHeadLost(s, q, m, t, g, hg.value.0, hg.value.1);
    } else {
      var df := LeftmostGoesOn(s, q, m, t, f);
      var dg := LeftmostGoesOn(s, q, m, t, g);
    }
  }

  lemma MarkingKeepsDoom(s: string, h: string, t: string, f: string, g: string)
    requires IsName(h) && Marked(s, h) == Ok(t)
    requires IsName(f) && IsName(g) && OneHead(s, f) && OneHead(s, g) && Doomed(s, f, g)
    ensures OneHead(t, f) && OneHead(t, g) && Doomed(t, f, g)
  {
    var (q, e) := FindHead(s, 0, h).value;
    if t != s {
      MarkerIsHarmless();
      MarkedOnce(s, MARKER, h, q, e);
      MarkingInserts(s, h, q, e);
      OneHeadStays(s, q, MARKER, t, f);
      OneHeadStays(s, q, MARKER, t, g);
      DoomStays(s, q, MARKER, t, f, g);
    }
  }

  lemma {:induction false} LoopKeepsDoom(s: string, names: seq<string>, f: string, g: string)
    requires AllNames(names) && MarkAll(s, names).Ok?
    requires IsName(f) && IsName(g) && OneHead(s, f) && OneHead(s, g) && Doomed(s, f, g)
    ensures var t := MarkAll(s, names).value; OneHead(t, f) && OneHead(t, g) && Doomed(t, f, g)
    decreases |names|
  {
    if names != [] {
      var n := |names| - 1;
      LoopKeepsDoom(s, names[..n], f, g);
      MarkingKeepsDoom(MarkAll(s, names[..n]).value, names[n], MarkAll(s, names).value, f, g);
    }
  }

  /** Of two functions that are both marked, neither is doomed by the other. */
  lemma MarkedAreClear(s: string, f: string, g: string)
    requires IsName(f) && IsName(g) && IsMarked(s, f) && IsMarked(s, g)
    ensures Clear(s, f, g)
  {
    var k, e :| MarkedAt(s, MARKER, f, k, e);
    var q, eg :| MarkedAt(s, MARKER, g, q, eg);
    MarkIsNotSpanned(s, f, g, k, e, q, eg);
  }

  /**
   * When every function has one head, the loop marks every function exactly when no head of one
   * starts inside that of another.
   */
  lemma MarksEveryFunction(s: string, names: seq<string>)
    requires AllNames(names) && forall f :: f in names ==> OneHead(s, f)
    ensures HeadsApart(s, names) <==> MarkAll(s, names).Ok? && AllMarked(MarkAll(s, names).value, names)
  {
    if HeadsApart(s, names) {
      var t := EveryFunctionMarked(s, names, names);
    } else {
      var f, g :| f in names && g in names && !Clear(s, f, g);
      if MarkAll(s, names).Ok? {
        LoopKeepsDoom(s, names, f, g);
        NotBothMarked(MarkAll(s, names).value, f, g);
      }
    }
  }

  lemma NotBothMarked(s: string, f: string, g: string)
    requires IsName(f) && IsName(g) && Doomed(s, f, g)
    ensures !IsMarked(s, f) || !IsMarked(s, g)
  {
    if IsMarked(s, f) && IsMarked(s, g) {
      MarkedAreClear(s, f, g);
    }
  }

  /** A text in which the head of one function starts inside that of another. */
  const NESTED := "f(g(x) {}"

  /** There both functions are found and marked one after the other, and then the first has no head. */
  lemma NestedHeadIsLost()
    ensures FindHead(NESTED, 0, "f").Ok? && FindHead(NESTED, 0, "g").Ok?
    ensures exists t :: MarkAll(NESTED, ["f", "g"]) == Ok(t) && IsMarked(t, "g") && FindHead(t, 0, "f").Err?
  {
    NestedHeads();
    var s, u := NESTED, Inserted(NESTED, 0, MARKER);
    StandsBeforeMeans(MARKER, s, 0);
    MarkingInserts(s, "f", 0, 8);
    LeftmostMoves(s, 0, MARKER, u, "g", 2, 8);
    MarkedIsMarked(u, "g");
    var t := Marked(u, "g").value;
    OneByOne(s, "f", "g", u, t);
    MarkingKeepsDoom(s, "f", u, "f", "g");
    MarkingKeepsDoom(u, "g", t, "f", "g");
    LostToMarked(t, "f", "g");
  }

  lemma OneByOne(s: string, f: string, g: string, u: string, t: string)
    requires Marked(s, f) == Ok(u) && Marked(u, g) == Ok(t)
    ensures MarkAll(s, [f, g]) == Ok(t)
  {
    assert [f, g][..1] == [f] && [f][..0] == [];
    MarkAllStep(s, [f], s, u);
    MarkAllStep(s, [f, g], u, t);
  }

  /** A function doomed by a marked one has no head. */
  lemma LostToMarked(t: string, f: string, g: string)
    requires IsName(f) && IsName(g) && Doomed(t, f, g) && IsMarked(t, g)
    ensures FindHead(t, 0, f).Err?
  {
    var q, eg :| MarkedAt(t, MARKER, g, q, eg);
    if FindHead(t, 0, f).Ok? {
      var (k, e) := FindHead(t, 0, f).value;
      MarkIsNotSpanned(t, f, g, k, e, q, eg);
    }
  }

  lemma NestedHeads()
    ensures Leftmost(NESTED, "f", 0, 8) && Leftmost(NESTED, "g", 2, 8)
    ensures OneHead(NESTED, "f") && OneHead(NESTED, "g")
  {
    NestedLists();
    OnlyHead(NESTED, 'f', 0);
    OnlyHead(NESTED, 'g', 2);
  }

  lemma NestedLists()
    ensures |NESTED| == 9 && ParametersEnd(NESTED, 1) == 8 && ParametersEnd(NESTED, 3) == 8
  {
    var s := NESTED;
    SkipToParenStops(s, 2, 5);
    SkipToParenStops(s, 4, 5);
    SkipSpacesStops(s, 6, 7);
  }

  /** A name of one character that occurs once. */
  lemma OnlyHead(s: string, c: char, k: nat)
    requires k + 1 < |s| && IsWord(c) && s[k] == c && (k > 0 ==> !IsWord(s[k - 1])) && ParametersEnd(s, k + 1) > 0
    requires forall j :: 0 <= j < |s| && j != k ==> s[j] != c
    ensures OneHead(s, [c]) && Leftmost(s, [c], k, ParametersEnd(s, k + 1))
  {
    forall j: nat | j <= |s|
      ensures HeadEnd(s, j, [c]) > 0 <==> j == k
    {
      HeadHere(s, c, k, j);
    }
    LeftmostIs(s, [c], k, HeadEnd(s, k, [c]));
  }

  lemma HeadHere(s: string, c: char, k: nat, j: nat)
    requires k + 1 < |s| && IsWord(c) && s[k] == c && (k > 0 ==> !IsWord(s[k - 1])) && ParametersEnd(s, k + 1) > 0
    requires j <= |s| && forall i :: 0 <= i < |s| && i != k ==> s[i] != c
    ensures HeadEnd(s, j, [c]) == if j == k then ParametersEnd(s, k + 1) else 0
  {
    assert s[k..k + 1] == [c];
    if j < |s| && j != k {
      assert s[j..j + 1] == [s[j]];
    }
  }
}
