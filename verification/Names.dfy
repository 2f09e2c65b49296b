/** Names the generators make: site labels, wasm allocators and the stems of namespaces. */
module Names {
  import opened SourceText

  function Decimal(n: nat): string {
    if n < 10 then [Digit(n)] else Decimal(n / 10) + [Digit(n % 10)]
  }

  function Digit(n: nat): char
    requires n < 10
  {
    '0' + n as char
  }

  lemma {:induction false} DecimalsDiffer(m: nat, n: nat)
    ensures Decimal(m) == Decimal(n) <==> m == n
  {
    DecimalNotEmpty(m / 10);
    DecimalNotEmpty(n / 10);
    if Decimal(m) == Decimal(n) {
      var a, b := Decimal(m), Decimal(n);
      assert a[|a| - 1] == Digit(m % 10) && b[|b| - 1] == Digit(n % 10);
      if m >= 10 && n >= 10 {
        assert a[..|a| - 1] == Decimal(m / 10) && b[..|b| - 1] == Decimal(n / 10);
        DecimalsDiffer(m / 10, n / 10);
      }
    }
  }

  lemma DecimalNotEmpty(n: nat)
    ensures |Decimal(n)| > 0
  {
  }

  lemma {:induction false} DecimalDigits(n: nat)
    ensures forall i :: 0 <= i < |Decimal(n)| ==> '0' <= Decimal(n)[i] <= '9'
  {
    if n >= 10 {
      DecimalDigits(n / 10);
    }
  }

  predicate IsIdentifier(name: string) {
    forall i :: 0 <= i < |name| ==> IsWord(name[i])
  }

  /** `symbol`: every character outside identifiers becomes an underscore. */
  function Symbol(name: string): (r: string)
    ensures |r| == |name| && IsIdentifier(r)
    ensures IsIdentifier(name) ==> r == name
  {
    seq(|name|, i requires 0 <= i < |name| => if IsWord(name[i]) then name[i] else '_')
  }

  // ----- namespaces of the wasm generator

  function Lower(c: char): char {
    if 'A' <= c <= 'Z' then 'a' + (c - 'A') else c
  }

  function Upper(c: char): char {
    if 'a' <= c <= 'z' then 'A' + (c - 'a') else c
  }

  predicate IsAlphanumeric(c: char) {
    IsWord(c) && c != '_'
  }

  /** `c_stem` */
  function CStem(namespace_: string): (r: string)
    ensures IsIdentifier(r)
  {
    seq(|namespace_|, i requires 0 <= i < |namespace_| => Lower(Symbol(namespace_)[i]))
  }

  /** `cpp`: the alphanumeric parts joined, each with its first letter in upper case. */
  function Cpp(name: string): string {
    if name == "" then ""
    else
      var n := |name| - 1;
      if !IsAlphanumeric(name[n]) then Cpp(name[..n])
      else if n == 0 || !IsAlphanumeric(name[n - 1]) then Cpp(name[..n]) + [Upper(name[n])]
      else Cpp(name[..n]) + [name[n]]
  }

  /** A namespace has an import stem unless nothing in it is alphanumeric. */
  lemma {:induction false} EmptyStem(name: string)
    ensures Cpp(name) == "" <==> forall i :: 0 <= i < |name| ==> !IsAlphanumeric(name[i])
  {
    if name != "" {
      EmptyStem(name[..|name| - 1]);
    }
  }

  /** The characters that a stem does not tell apart: the cases of a letter, and all outside words. */
  predicate SameInStem(c: char, d: char) {
    if IsAlphanumeric(c) && IsAlphanumeric(d) then Lower(c) == Lower(d)
    else !IsAlphanumeric(c) && !IsAlphanumeric(d)
  }

  /** Exactly which namespaces share the stem of their allocators. */
  lemma StemsAgree(a: string, b: string)
    ensures CStem(a) == CStem(b) <==> |a| == |b| && forall i :: 0 <= i < |a| ==> SameInStem(a[i], b[i])
  {
    forall i | 0 <= i < |a| && i < |b|
      ensures CStem(a)[i] == CStem(b)[i] <==> SameInStem(a[i], b[i])
    {
      StemChar(a, i);
      StemChar(b, i);
    }
  }

  /** The stem has letters and digits in lower case, and underscores for everything else. */
  lemma StemChar(name: string, i: nat)
    requires i < |name|
    ensures |CStem(name)| == |name|
    ensures CStem(name)[i] == '_' <==> !IsAlphanumeric(name[i])
    ensures IsAlphanumeric(name[i]) ==>
              Lower(CStem(name)[i]) == CStem(name)[i] == Lower(name[i]) && Upper(CStem(name)[i]) == Upper(name[i])
  {
  }

  /** An alphanumeric part goes into an identifier with its first letter in upper case. */
  lemma {:induction false} CppOfPart(part: string)
    requires part != "" && forall i :: 0 <= i < |part| ==> IsAlphanumeric(part[i])
    ensures Cpp(part) == [Upper(part[0])] + part[1..]
  {
    var n := |part| - 1;
    if n > 0 {
      CppOfPart(part[..n]);
      assert part[..n][1..] + [part[n]] == part[1..];
    } else {
      assert Cpp(part[..0]) == "";
    }
  }

  /** What stands on both sides of any other character goes in separately. */
  lemma {:induction false} CppOfParts(a: string, c: char, b: string)
    requires !IsAlphanumeric(c)
    ensures Cpp(a + [c] + b) == Cpp(a) + Cpp(b)
    decreases |b|
  {
    var all := a + [c] + b;
    if b == "" {
      assert all[..|all| - 1] == a;
    } else {
      var n := |b| - 1;
      assert all[..|all| - 1] == a + [c] + b[..n];
      assert all[|all| - 2] == if n == 0 then c else b[n - 1];
      CppOfParts(a, c, b[..n]);
    }
  }

  /** The C name of the allocator of a wasm site. */
  function SiteName(stem: string, localId: nat): string {
    "interspec_wasm_alloc_" + stem + "_site_" + Decimal(localId)
  }

  lemma SiteNamesDiffer(stem: string, i: nat, j: nat)
    ensures SiteName(stem, i) == SiteName(stem, j) <==> i == j
  {
    var p := "interspec_wasm_alloc_" + stem + "_site_";
    assert SiteName(stem, i)[|p|..] == Decimal(i);
    assert SiteName(stem, j)[|p|..] == Decimal(j);
    DecimalsDiffer(i, j);
  }

  lemma SiteNameIsIdentifier(stem: string, i: nat)
    requires IsIdentifier(stem)
    ensures IsIdentifier(SiteName(stem, i))
  {
    DecimalDigits(i);
  }

  // ----- labels of native sites

  /** A label of a native site: `stem` is the function of an allocation, or namespace and helper. */
  function LabelName(stem: string, siteId: nat, isEnd: bool): string {
    Suffixed("interspec_alloc_site_" + stem, siteId) + (if isEnd then "_end" else "_begin")
  }

  function Suffixed(prefix: string, n: nat): string {
    prefix + ("_" + Decimal(n))
  }

  /** Two labels are the same only for the same number and the same end, whatever the stems. */
  lemma LabelsDiffer(stem: string, id: nat, isEnd: bool, stem': string, id': nat, isEnd': bool)
    requires LabelName(stem, id, isEnd) == LabelName(stem', id', isEnd')
    ensures id == id' && isEnd == isEnd'
  {
    var a, b := Suffixed("interspec_alloc_site_" + stem, id), Suffixed("interspec_alloc_site_" + stem', id');
    var x, y := LabelName(stem, id, isEnd), LabelName(stem', id', isEnd');
    assert x[|x| - 1] == if isEnd then 'd' else 'n';
    assert y[|y| - 1] == if isEnd' then 'd' else 'n';
    assert x[..|a|] == a && y[..|b|] == b;
    SuffixesDiffer("interspec_alloc_site_" + stem, id, "interspec_alloc_site_" + stem', id');
  }

  /** A number after the last underscore can be read back. */
  lemma SuffixesDiffer(p: string, m: nat, q: string, n: nat)
    requires Suffixed(p, m) == Suffixed(q, n)
    ensures m == n
  {
    DecimalDigits(m);
    DecimalDigits(n);
    TailsAgree(p, Decimal(m), q, Decimal(n));
    DecimalsDiffer(m, n);
  }

  lemma TailsAgree(p: string, a: string, q: string, b: string)
    requires p + ("_" + a) == q + ("_" + b) && '_' !in a && '_' !in b
    ensures a == b
  {
    var s, t := p + ("_" + a), q + ("_" + b);
    assert s[|p|] == '_' && t[|q|] == '_';
    assert s[|p| + 1..] == a && t[|q| + 1..] == b;
    assert forall i :: |p| < i < |s| ==> s[i] == a[i - |p| - 1];
    assert forall i :: |q| < i < |t| ==> t[i] == b[i - |q| - 1];
  }

  lemma LabelIsIdentifier(stem: string, id: nat, isEnd: bool)
    requires IsIdentifier(stem)
    ensures IsIdentifier(LabelName(stem, id, isEnd))
  {
    DecimalDigits(id);
  }
}
