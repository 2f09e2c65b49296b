/** The order in which the generators instrument the sites of a policy. */
module SiteOrder {
  import opened Results
  import opened SourceText
  import opened Instrumenter
  import opened SimultaneousEdits

  /** `a` starts where `b` starts, or after it. */
  predicate NotBefore(a: Site, b: Site) {
    b.startLine < a.startLine || (b.startLine == a.startLine && b.startColumn <= a.startColumn)
  }

  function InsertSite(sorted: seq<Site>, x: Site): seq<Site> {
    if sorted == [] || NotBefore(sorted[|sorted| - 1], x) then sorted + [x]
    else InsertSite(sorted[..|sorted| - 1], x) + [sorted[|sorted| - 1]]
  }

  /** A stable sort by start, in descending order. */
  function SortSites(sites: seq<Site>): seq<Site> {
    if sites == [] then [] else InsertSite(SortSites(sites[..|sites| - 1]), sites[|sites| - 1])
  }

  lemma {:induction false} InsertDescending(sorted: seq<Site>, x: Site)
    requires Descending(sorted)
    ensures Descending(InsertSite(sorted, x))
    ensures forall s :: s in InsertSite(sorted, x) <==> s in sorted || s == x
  {
    if sorted != [] && !NotBefore(sorted[|sorted| - 1], x) {
      var n := |sorted| - 1;
      InsertDescending(sorted[..n], x);
      assert sorted == sorted[..n] + [sorted[n]];
      EndsDescending(InsertSite(sorted[..n], x), sorted[n]);
    }
  }

  lemma EndsDescending(front: seq<Site>, last: Site)
    requires Descending(front) && forall s :: s in front ==> NotBefore(s, last)
    ensures Descending(front + [last])
  {
    assert forall i :: 0 <= i < |front| ==> front[i] in front;
  }

  /** Sorting puts exactly the given sites in descending order. */
  lemma {:induction false} SortedDescending(sites: seq<Site>)
    ensures Descending(SortSites(sites))
    ensures forall s :: s in SortSites(sites) <==> s in sites
  {
    if sites != [] {
      var n := |sites| - 1;
      SortedDescending(sites[..n]);
      InsertDescending(SortSites(sites[..n]), sites[n]);
      assert sites == sites[..n] + [sites[n]];
    }
  }

  // ----- the edits of sorted sites

  ghost function EditsOf(sites: seq<Site>, edit: Site -> Edit): seq<Edit> {
    seq(|sites|, i requires 0 <= i < |sites| => edit(sites[i]))
  }

  predicate Disjoint(a: Edit, b: Edit) {
    a.end <= b.start || b.end <= a.start
  }

  lemma ApartSplit(front: seq<Edit>, last: Edit)
    ensures Apart(front + [last]) <==> Apart(front) && forall f :: f in front ==> Disjoint(f, last)
  {
    var all := front + [last];
    assert all[|front|] == last && forall i :: 0 <= i < |front| ==> all[i] == front[i];
    if Apart(all) {
      forall i | 0 <= i < |front|
        ensures Disjoint(front[i], last)
      {
        assert Disjoint(all[i], all[|front|]);
      }
      forall i, j | 0 <= i < j < |front|
        ensures Disjoint(front[i], front[j])
      {
        assert Disjoint(all[i], all[j]);
      }
    }
    if forall f :: f in front ==> Disjoint(f, last) {
      assert forall i :: 0 <= i < |front| ==> front[i] in front;
    }
  }

  lemma {:induction false} InsertApart(sorted: seq<Site>, x: Site, edit: Site -> Edit)
    requires Apart(EditsOf(sorted, edit) + [edit(x)])
    ensures Apart(EditsOf(InsertSite(sorted, x), edit))
    ensures forall f :: f in EditsOf(InsertSite(sorted, x), edit) <==> f in EditsOf(sorted, edit) || f == edit(x)
    decreases |sorted|
  {
    if sorted == [] || NotBefore(sorted[|sorted| - 1], x) {
      assert EditsOf(sorted + [x], edit) == EditsOf(sorted, edit) + [edit(x)];
    } else {
      var n := |sorted| - 1;
      var front, last := EditsOf(sorted[..n], edit), edit(sorted[n]);
      assert EditsOf(sorted, edit) == front + [last];
      ApartSplit(front + [last], edit(x));
      assert last in front + [last] && Disjoint(last, edit(x));
      assert forall f :: f in front ==> f in front + [last];
      ApartSplit(front, last);
      ApartSplit(front, edit(x));
      InsertApart(sorted[..n], x, edit);
      var inserted := InsertSite(sorted[..n], x);
      assert EditsOf(inserted + [sorted[n]], edit) == EditsOf(inserted, edit) + [last];
      assert forall f :: f in EditsOf(inserted, edit) ==> Disjoint(f, last);
      ApartSplit(EditsOf(inserted, edit), last);
    }
  }

  /** Sorting sites reorders their edits, and so keeps them apart. */
  lemma {:induction false} SortApart(sites: seq<Site>, edit: Site -> Edit)
    requires Apart(EditsOf(sites, edit))
    ensures Apart(EditsOf(SortSites(sites), edit))
    ensures forall f :: f in EditsOf(SortSites(sites), edit) <==> f in EditsOf(sites, edit)
  {
    if sites != [] {
      var n := |sites| - 1;
      var front := EditsOf(sites[..n], edit);
      assert EditsOf(sites, edit) == front + [edit(sites[n])];
      ApartSplit(front, edit(sites[n]));
      SortApart(sites[..n], edit);
      ApartSplit(EditsOf(SortSites(sites[..n]), edit), edit(sites[n]));
      InsertApart(SortSites(sites[..n]), sites[n], edit);
    }
  }

  ghost function EditOf(source: string, site: Site): Edit {
    if Plan(source, site).Ok? then Plan(source, site).value else Edit(0, 0, "")
  }

  lemma SortPlanned(source: string, sites: seq<Site>, es: seq<Edit>) returns (fs: seq<Edit>)
    requires Planned(source, sites, es) && Apart(es)
    ensures Planned(source, SortSites(sites), fs) && Apart(fs)
    ensures forall f :: f in fs <==> f in es
  {
    var edit := s => EditOf(source, s);
    assert es == EditsOf(sites, edit);
    SortApart(sites, edit);
    SortedDescending(sites);
    fs := EditsOf(SortSites(sites), edit);
    forall i | 0 <= i < |fs|
      ensures SortSites(sites)[i].template.Named() && Plan(source, SortSites(sites)[i]) == Ok(fs[i])
    {
      assert SortSites(sites)[i] in sites;
    }
  }

  /**
   * For sites in any order whose calls do not meet, instrumenting them in sorted order replaces
   * exactly their calls, all at once.
   */
  lemma SortedFoldIsSimultaneous(source: string, sites: seq<Site>, es: seq<Edit>) returns (fs: seq<Edit>)
    requires Planned(source, sites, es) && Apart(es)
    ensures forall f :: f in fs <==> f in es
    ensures Separate(source, 0, fs)
    ensures Fold(source, SortSites(sites)) == Ok(Replaced(source, 0, fs))
  {
    fs := SortPlanned(source, sites, es);
    SortedDescending(sites);
    FoldIsSimultaneous(source, SortSites(sites), fs);
  }
}
