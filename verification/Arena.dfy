/**
 * The bump arena seen on its own: live records over a history of every block ever issued.
 * Lookups are stated over all live records.
 */
module Arena {
  import opened Machine

  datatype Allocation = Allocation(base: Word, size: Word, typeHash: Word, siteId: Word32) {
    predicate Contains(p: nat) { base <= p < base + size }

    /** First address after the block and its alignment padding. */
    function End(): nat { base + RoundUp(size) }
  }

  datatype Arena = Arena(
    base: Word,
    capacity: Word,
    used: Word,
    live: map<Word, Allocation>,
    issued: seq<Allocation>)
  {
    predicate Addressable() {
      base + capacity <= UINTPTR_MAX
    }

    predicate Fits(size: Word) {
      Addressable() && size > 0 && used + RoundUp(size) <= capacity
    }

    /** The record the next grant would create. */
    function NextBlock(size: Word, hash: Word, site: Word32): Allocation
      requires Fits(size)
    {
      Allocation(base + used, size, hash, site)
    }

    function Issue(size: Word, hash: Word, site: Word32): (Arena, Word) {
      if !Fits(size) then (this, 0)
      else
        var block := NextBlock(size, hash, site);
        (Arena(base, capacity, used + RoundUp(size), live[block.base := block], issued + [block]), block.base)
    }

    function Remove(p: Word): Arena {
      this.(live := live - {p})
    }

    function Reallocate(p: Word, size: Word): (Arena, Word) {
      if p !in live then (this, 0)
      else if size == 0 then (Remove(p), 0)
      else
        var (a, q) := Issue(size, live[p].typeHash, live[p].siteId);
        if q == 0 then (a, 0) else (a.Remove(p), q)
    }

    ghost predicate LiveHolds(k: Word, p: nat) {
      k in live && live[k].Contains(p)
    }

    /** Some live record whose object contains `p`. */
    ghost function LiveAt(p: nat): (r: Option<Allocation>)
      ensures r.Some? <==> exists k :: LiveHolds(k, p)
      ensures r.Some? ==> exists k :: LiveHolds(k, p) && live[k] == r.value
    {
      if k :| LiveHolds(k, p) then Some(live[k]) else None
    }

    /** Issued blocks lie in order in `[base, base + used)`; live records are issued blocks. */
    ghost predicate Inv() {
      && used <= capacity
      && (issued != [] ==> Addressable())
      && (forall i :: 0 <= i < |issued| ==>
            issued[i].size > 0 && base <= issued[i].base && issued[i].base + issued[i].size <= base + used)
      && (forall i, j :: 0 <= i < j < |issued| ==> issued[i].base + issued[i].size <= issued[j].base)
      && (forall k :: k in live ==> live[k].base == k && live[k] in issued)
    }

    /** With their padding, the issued blocks tile `[base, base + used)`. */
    ghost predicate Tiled() {
      && used == SumRounded(issued)
      && TiledFrom(base, issued)
    }
  }

  function SumRounded(blocks: seq<Allocation>): nat {
    if blocks == [] then 0
    else SumRounded(blocks[..|blocks| - 1]) + RoundUp(blocks[|blocks| - 1].size)
  }

  /** Each block starts where the rounded sizes of those before it end. */
  ghost predicate TiledFrom(base: Word, blocks: seq<Allocation>) {
    forall i {:trigger blocks[..i]} :: 0 <= i < |blocks| ==> blocks[i].base == base + SumRounded(blocks[..i])
  }

  /** An address lies in at most one object ever issued. */
  lemma SameBlock(a: Arena, x: Allocation, y: Allocation, p: nat)
    requires a.Inv() && x in a.issued && y in a.issued
    requires x.Contains(p) && y.Contains(p)
    ensures x == y
  {
    var i :| 0 <= i < |a.issued| && a.issued[i] == x;
    var j :| 0 <= j < |a.issued| && a.issued[j] == y;
    assert i < j ==> x.base + x.size <= y.base;
    assert j < i ==> y.base + y.size <= x.base;
  }

  /** The lookup has one answer: two live records cannot both contain an address. */
  lemma LiveAtIs(a: Arena, k: Word, p: nat)
    requires a.Inv() && a.LiveHolds(k, p)
    ensures a.LiveAt(p) == Some(a.live[k])
  {
    assert a.LiveAt(p).Some?;
    var j :| a.LiveHolds(j, p) && a.live[j] == a.LiveAt(p).value;
    SameBlock(a, a.live[k], a.live[j], p);
  }

  lemma IssueKeepsInv(a: Arena, size: Word, hash: Word, site: Word32)
    requires a.Inv()
    ensures a.Issue(size, hash, site).0.Inv()
  {
  }

  lemma IssueKeepsTiling(a: Arena, size: Word, hash: Word, site: Word32)
    requires a.Tiled()
    ensures a.Issue(size, hash, site).0.Tiled()
  {
    if a.Fits(size) {
      AppendTiled(a.base, a.issued, a.NextBlock(size, hash, site));
    }
  }

  lemma AppendTiled(base: Word, blocks: seq<Allocation>, b: Allocation)
    requires TiledFrom(base, blocks) && b.base == base + SumRounded(blocks)
    ensures TiledFrom(base, blocks + [b])
    ensures SumRounded(blocks + [b]) == SumRounded(blocks) + RoundUp(b.size)
  {
    var all := blocks + [b];
    assert all[..|blocks|] == blocks;
    forall i | 0 <= i < |all|
      ensures all[i].base == base + SumRounded(all[..i])
    {
      assert i < |blocks| ==> all[..i] == blocks[..i];
    }
  }
}
