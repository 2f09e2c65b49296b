/**
 * Why one predecessor, or two neighbours, of an ordered map decide a question about all of its
 * records: live blocks and site intervals never meet.
 */
module PredecessorLookup {
  import opened Machine
  import opened OrderedMap
  import opened Arena
  import opened RuntimeSpec

  /** A live record containing `p` is the predecessor of `upper_bound(p)`. */
  lemma ContainingIsPredecessor(a: Arena, es: Entries<Allocation>, p: Word, it: nat, k: Word)
    requires a.Inv() && Sorted(es) && a.live == ToMap(es) && IsUpperBound(es, p, it)
    requires a.LiveHolds(k, p)
    ensures it > 0 && es[it - 1].value == a.live[k]
  {
    var i := MapToKey(es, k);
    KeyInMap(es, it - 1);
    if i + 1 < it {
      // `k` ends before its successor starts, and the successor starts no later than `p`.
      BlocksInKeyOrder(a, es[i].value, es[it - 1].value);
    }
  }

  lemma BlocksInKeyOrder(a: Arena, x: Allocation, y: Allocation)
    requires a.Inv() && x in a.issued && y in a.issued && x.base < y.base
    ensures x.base + x.size <= y.base
  {
    var i :| 0 <= i < |a.issued| && a.issued[i] == x;
    var j :| 0 <= j < |a.issued| && a.issued[j] == y;
  }

  /** Predecessor search agrees with the search over all live records. */
  lemma PredecessorDecides(s: State, es: Entries<Allocation>, p: Word, it: nat)
    requires Reachable(s) && Sorted(es) && s.arena.live == ToMap(es) && IsUpperBound(es, p, it)
    ensures it > 0 ==> es[it - 1].value.base <= p
    ensures s.arena.LiveAt(p) ==
            if it > 0 && es[it - 1].value.Contains(p) then Some(es[it - 1].value) else None
  {
    ReachableInv(s);
    var a := s.arena;
    if it > 0 {
      KeyInMap(es, it - 1);
    }
    if a.LiveAt(p).Some? {
      var k :| a.LiveHolds(k, p) && a.live[k] == a.LiveAt(p).value;
      ContainingIsPredecessor(a, es, p, it, k);
    } else if it > 0 {
      assert !a.LiveHolds(es[it - 1].key, p);
    }
  }

  /** What the neighbour tests rely on. */
  ghost predicate StoredByStart(s: SiteTable, es: Entries<AllocationSite>) {
    && Sorted(es) && s.byStart == ToMap(es) && s.PairwiseDisjoint()
    && (forall i :: 0 <= i < |es| ==>
          && es[i].key in s.byStart && s.byStart[es[i].key] == es[i].value
          && es[i].value.begin == es[i].key < es[i].value.end)
  }

  lemma SitesStoredByStart(state: State, es: Entries<AllocationSite>)
    requires Reachable(state) && Sorted(es) && state.sites.byStart == ToMap(es)
    ensures StoredByStart(state.sites, es)
  {
    ReachableInv(state);
    var s, t := state.sites, state.types;
    forall i | 0 <= i < |es|
      ensures es[i].key in s.byStart && s.byStart[es[i].key] == es[i].value
      ensures es[i].value.begin == es[i].key < es[i].value.end
    {
      KeyInMap(es, i);
      assert s.EntryOk(t, es[i].key);
    }
  }

  lemma EarlierSiteEndsFirst(s: SiteTable, es: Entries<AllocationSite>, i: nat, j: nat)
    requires StoredByStart(s, es) && i < j < |es|
    ensures es[i].value.end <= es[j].key
  {
    assert s.byStart[es[i].key].Disjoint(es[j].value.begin, es[j].value.end);
  }

  lemma HoldingIsPredecessor(s: SiteTable, es: Entries<AllocationSite>, pc: Word, it: nat, b: Word)
    requires StoredByStart(s, es) && IsUpperBound(es, pc, it) && s.Holds(b, pc)
    ensures it > 0 && es[it - 1].value == s.byStart[b]
  {
    var i := MapToKey(es, b);
  }

  /** Predecessor search agrees with the search over all registered sites. */
  lemma PredecessorSiteDecides(state: State, es: Entries<AllocationSite>, pc: Word, it: nat)
    requires Reachable(state) && Sorted(es) && state.sites.byStart == ToMap(es) && IsUpperBound(es, pc, it)
    ensures state.sites.At(pc) ==
            if it > 0 && es[it - 1].value.Contains(pc) then Some(es[it - 1].value) else None
  {
    var s := state.sites;
    SitesStoredByStart(state, es);
    if s.At(pc).Some? {
      var b :| s.Holds(b, pc) && s.byStart[b] == s.At(pc).value;
      HoldingIsPredecessor(s, es, pc, it, b);
    } else if it > 0 {
      assert !s.Holds(es[it - 1].key, pc);
    }
  }

  /** The tests of `register_allocation_site` on the two neighbours of `begin`. */
  predicate NeighboursClear(es: Entries<AllocationSite>, begin: Word, end: Word, next: nat)
    requires next <= |es|
  {
    && (next < |es| ==> end <= es[next].value.begin)
    && (next > 0 ==> es[next - 1].value.end <= begin)
  }

  lemma ClearNeighboursFree(s: SiteTable, es: Entries<AllocationSite>, begin: Word, end: Word, next: nat, b: Word)
    requires StoredByStart(s, es) && IsLowerBound(es, begin, next)
    requires NeighboursClear(es, begin, end, next) && b in s.byStart
    ensures s.byStart[b].Disjoint(begin, end)
  {
    var i := MapToKey(es, b);
    if i + 1 < next {
      EarlierSiteEndsFirst(s, es, i, next - 1);
    } else if i > next {
      assert es[next].key < es[i].key;
    }
  }

  /** The two neighbours are clear exactly when every registered site is. */
  lemma NeighboursDecide(state: State, es: Entries<AllocationSite>, begin: Word, end: Word, next: nat)
    requires Reachable(state) && Sorted(es) && state.sites.byStart == ToMap(es)
    requires IsLowerBound(es, begin, next) && 0 < begin < end
    ensures NeighboursClear(es, begin, end, next) <==> state.sites.Free(begin, end)
  {
    var s := state.sites;
    SitesStoredByStart(state, es);
    if NeighboursClear(es, begin, end, next) {
      forall b | b in s.byStart
        ensures s.byStart[b].Disjoint(begin, end)
      {
        ClearNeighboursFree(s, es, begin, end, next, b);
      }
    } else {
      assert next < |es| ==> es[next].key in s.byStart;
      assert next > 0 ==> es[next - 1].key in s.byStart;
    }
  }
}
