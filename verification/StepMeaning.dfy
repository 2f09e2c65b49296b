/** What each public call of the runtime does, record by record and address by address. */
module StepMeaning {
  import opened Machine
  import opened Arena
  import opened RuntimeSpec
  import opened RuntimeRuns

  ghost predicate SameTables(s: State, t: State) {
    t.types == s.types && t.sites == s.sites
  }

  // ----- release

  /** Releasing drops exactly the record that starts at `p`, if there is one, and nothing else. */
  lemma ReleaseMeans(s: State, p: Word)
    requires Reachable(s)
    ensures var (t, r) := Step(s, OpRelease(p));
            && r == Flag(p in s.arena.live)
            && (forall k :: k in t.arena.live <==> k in s.arena.live && k != p)
            && (forall k :: k in t.arena.live ==> t.arena.live[k] == s.arena.live[k])
            && t.arena.used == s.arena.used && t.arena.issued == s.arena.issued
            && t.arena.base == s.arena.base && t.arena.capacity == s.arena.capacity
            && SameTables(s, t)
  {
  }

  lemma ReleaseElsewhere(s: State, p: Word, q: nat)
    requires Reachable(s) && !(p in s.arena.live && s.arena.live[p].Contains(q))
    ensures Step(s, OpRelease(p)).0.arena.LiveAt(q) == s.arena.LiveAt(q)
  {
    var t := Step(s, OpRelease(p)).0;
    ReleaseMeans(s, p);
    ReachableInv(s);
    StepReachable(s, OpRelease(p));
    ReachableInv(t);
    if s.arena.LiveAt(q).Some? {
      var k :| s.arena.LiveHolds(k, q) && s.arena.live[k] == s.arena.LiveAt(q).value;
      assert t.arena.LiveHolds(k, q);
      LiveAtIs(t.arena, k, q);
    } else if t.arena.LiveAt(q).Some? {
      var k :| t.arena.LiveHolds(k, q);
      assert s.arena.LiveHolds(k, q);
    }
  }

  /** Addresses outside the released object are checked as before; those inside become untracked. */
  lemma ChecksAfterRelease(s: State, p: Word, q: Word, n: Word, hash: Word)
    requires Reachable(s)
    ensures var t := Step(s, OpRelease(p)).0;
            if p in s.arena.live && s.arena.live[p].Contains(q)
            then t.Check(q, n, hash) == Untracked && t.Remaining(q, hash) == (Untracked, None)
            else t.Check(q, n, hash) == s.Check(q, n, hash) && t.Remaining(q, hash) == s.Remaining(q, hash)
  {
    if p in s.arena.live && s.arena.live[p].Contains(q) {
      ReachableInv(s);
      RemovedIsUntracked(s.arena, p, q);
    } else {
      ReleaseElsewhere(s, p, q);
    }
  }

  // ----- checks

  /** No live object holds `p`. */
  ghost predicate Unheld(s: State, p: Word) {
    forall k :: !s.arena.LiveHolds(k, p)
  }

  /** A live object of another type holds `p`. */
  ghost predicate HeldAsOther(s: State, p: Word, hash: Word) {
    exists k: Word :: s.arena.LiveHolds(k, p) && s.arena.live[k].typeHash != hash
  }

  /** A live object of the type holds `p`, and `n` bytes from there on end inside it, or do not. */
  ghost predicate HeldFor(s: State, p: Word, n: nat, hash: Word) {
    exists k: Word :: s.arena.LiveHolds(k, p) && s.arena.live[k].typeHash == hash
                      && p + n <= k + s.arena.live[k].size
  }

  ghost predicate HeldTooShort(s: State, p: Word, n: nat, hash: Word) {
    exists k: Word :: s.arena.LiveHolds(k, p) && s.arena.live[k].typeHash == hash
                      && p + n > k + s.arena.live[k].size
  }

  /** A live object of the type holds `p` and ends exactly `left` bytes further on. */
  ghost predicate EndsAfter(s: State, p: Word, left: nat, hash: Word) {
    exists k: Word :: s.arena.LiveHolds(k, p) && s.arena.live[k].typeHash == hash
                      && p + left == k + s.arena.live[k].size
  }

  /** Exactly when each verdict of `check` is given. */
  lemma CheckVerdicts(s: State, p: Word, n: Word, hash: Word)
    requires Reachable(s)
    ensures s.Check(p, n, hash) == Untracked <==> Unheld(s, p)
    ensures s.Check(p, n, hash) == WrongType <==> HeldAsOther(s, p, hash)
    ensures s.Check(p, n, hash) == OutOfBounds <==> HeldTooShort(s, p, n, hash)
    ensures s.Check(p, n, hash) == Ok <==> HeldFor(s, p, n, hash)
  {
    ReachableInv(s);
    if k :| s.arena.LiveHolds(k, p) {
      LiveAtIs(s.arena, k, p);
      OneHolder(s.arena, k, p);
      assert s.arena.live[k].base == k;
    }
  }

  lemma OneHolder(a: Arena, k: Word, p: nat)
    requires a.Inv() && a.LiveHolds(k, p)
    ensures forall j :: a.LiveHolds(j, p) ==> j == k
  {
    forall j | a.LiveHolds(j, p)
      ensures j == k
    {
      SameBlock(a, a.live[j], a.live[k], p);
    }
  }

  /** Exactly when each verdict of `remaining_bytes` is given, and the count it reports. */
  lemma RemainingVerdicts(s: State, p: Word, hash: Word)
    requires Reachable(s)
    ensures s.Remaining(p, hash).0 == Untracked <==> Unheld(s, p)
    ensures s.Remaining(p, hash).0 == WrongType <==> HeldAsOther(s, p, hash)
    ensures forall left: nat :: s.Remaining(p, hash) == (Ok, Some(left)) <==> EndsAfter(s, p, left, hash)
    ensures s.Remaining(p, hash).0 != OutOfBounds
  {
    ReachableInv(s);
    if k :| s.arena.LiveHolds(k, p) {
      LiveAtIs(s.arena, k, p);
      OneHolder(s.arena, k, p);
      assert s.arena.live[k].base == k;
    }
  }

  // ----- grants

  /** Some multiple of 8 that holds `size` bytes is left in a usable arena. */
  ghost predicate HasRoom(a: Arena, size: Word) {
    && size > 0 && a.base + a.capacity <= UINTPTR_MAX
    && exists m: nat :: Holds8(m, size) && a.used + m <= a.capacity
  }

  predicate Holds8(m: nat, size: nat) {
    m % 8 == 0 && size <= m
  }

  lemma RoomMeans(a: Arena, size: Word)
    ensures a.Fits(size) <==> HasRoom(a, size)
  {
    assert Holds8(RoundUp(size), size);
    assert forall m: nat :: Holds8(m, size) ==> RoundUp(size) <= m;
  }

  /** `p` is the next block: `size` bytes of the type, charged to the site, the rest as before. */
  ghost predicate Granted(s: State, t: State, p: Word, size: Word, hash: Word, site: Word32) {
    && p == s.arena.base + s.arena.used && p !in s.arena.live
    && t.arena.live == s.arena.live[p := Allocation(p, size, hash, site)]
    && t.arena.issued == s.arena.issued + [Allocation(p, size, hash, site)]
    && size <= t.arena.used - s.arena.used < size + 8 && (t.arena.used - s.arena.used) % 8 == 0
    && t.arena.base == s.arena.base && t.arena.capacity == s.arena.capacity
    && SameTables(s, t)
  }

  lemma IssueMeans(s: State, size: Word, hash: Word, site: Word32)
    requires Reachable(s)
    ensures var (t, p) := s.WithArena(s.arena.Issue(size, hash, site));
            if HasRoom(s.arena, size) then Granted(s, t, p, size, hash, site) else t == s && p == 0
  {
    ReachableInv(s);
    RoomMeans(s.arena, size);
  }

  /** An allocation by type is granted exactly when the type is known and there is room. */
  lemma AllocateMeans(s: State, size: Word, typeId: Word32)
    requires Reachable(s)
    ensures var (t, r) := Step(s, OpAllocate(size, typeId));
            if typeId in s.types.hashes && HasRoom(s.arena, size)
            then r.Address? && Granted(s, t, r.p, size, s.types.hashes[typeId], 0)
            else t == s && r == Address(0)
  {
    if typeId in s.types.hashes {
      IssueMeans(s, size, s.types.hashes[typeId], 0);
    }
  }

  /** An allocation by site is granted exactly when the site is known and there is room. */
  lemma AllocateFromSiteMeans(s: State, size: Word, site: Word32)
    requires Reachable(s)
    ensures var (t, r) := Step(s, OpAllocateFromSite(size, site));
            if site in s.sites.types && HasRoom(s.arena, size)
            then r.Address? && Granted(s, t, r.p, size, s.sites.types[site], site)
            else t == s && r == Address(0)
  {
    if site in s.sites.types {
      IssueMeans(s, size, s.sites.types[site], site);
    }
  }

  /** An allocation by program counter is one for the registered site that holds it, if any. */
  lemma AllocateFromPcMeans(s: State, size: Word, pc: Word)
    requires Reachable(s)
    ensures var (t, r) := Step(s, OpAllocateFromPc(size, pc));
            && (forall b :: s.sites.Holds(b, pc) && HasRoom(s.arena, size) ==>
                  r.Address? && Granted(s, t, r.p, size, s.sites.byStart[b].typeHash, s.sites.byStart[b].id))
            && ((forall b :: !s.sites.Holds(b, pc)) || !HasRoom(s.arena, size) ==> t == s && r == Address(0))
  {
    ReachableInv(s);
    if s.sites.At(pc).Some? {
      var site := s.sites.At(pc).value;
      IssueMeans(s, size, site.typeHash, site.id);
      forall b | s.sites.Holds(b, pc)
        ensures s.sites.byStart[b] == site
      {
        SiteAtIs(s.types, s.sites, b, pc);
      }
    }
  }

  /**
   * A reallocation: nothing happens to an untracked pointer or without room; size 0 releases; else
   * the record moves to the next block with its type and site, and every other record stays.
   */
  lemma ReallocateMeans(s: State, p: Word, size: Word)
    requires Reachable(s)
    ensures var (t, r) := Step(s, OpReallocate(p, size));
            if p !in s.arena.live then t == s && r == Address(0)
            else if size == 0 then t == Step(s, OpRelease(p)).0 && r == Address(0)
            else if !HasRoom(s.arena, size) then t == s && r == Address(0)
            else
              var a := s.arena.live[p];
              var q := s.arena.base + s.arena.used;
              && r == Address(q) && q != 0 && q !in s.arena.live
              && (forall k :: k in t.arena.live <==> k == q || (k in s.arena.live && k != p))
              && t.arena.live[q] == Allocation(q, size, a.typeHash, a.siteId)
              && (forall k :: k in s.arena.live && k != p ==> t.arena.live[k] == s.arena.live[k])
              && SameTables(s, t)
  {
    if p in s.arena.live && size != 0 {
      var a := s.arena.live[p];
      ReachableInv(s);
      RoomMeans(s.arena, size);
      IssueMeans(s, size, a.typeHash, a.siteId);
      LiveHasSize(s.arena, p);
      FreshBlockIsNew(s.arena, p);
    }
  }

  // ----- registration

  /** A type is registered exactly when its number is nonzero and number and hash are both new. */
  lemma RegisterTypeMeans(s: State, id: Word32, hash: Word)
    requires Reachable(s)
    ensures var (t, r) := Step(s, OpRegisterType(id, hash));
            && r == Flag(id != 0 && id !in s.types.hashes && forall j :: j in s.types.hashes ==> s.types.hashes[j] != hash)
            && (r == Flag(true) ==> t.types.hashes == s.types.hashes[id := hash])
            && (r == Flag(false) ==> t.types.hashes == s.types.hashes)
            && t.sites == s.sites && t.arena == s.arena
  {
    ReachableInv(s);
  }

  /** A bare SiteId is bound exactly when it is nonzero and new and the type known. */
  lemma RegisterSiteIdMeans(s: State, id: Word32, typeId: Word32)
    requires Reachable(s)
    ensures var (t, r) := Step(s, OpRegisterSiteId(id, typeId));
            && r == Flag(id != 0 && id !in s.sites.types && typeId in s.types.hashes)
            && (r == Flag(true) ==>
                  t.sites == s.sites.(types := s.sites.types[id := s.types.hashes[typeId]]))
            && (r == Flag(false) ==> t.sites == s.sites)
            && t.types == s.types && t.arena == s.arena
  {
  }

  /**
   * A site is registered exactly when its id is nonzero and new, its type known and its interval
   * proper, and no program counter of the interval lies in a site already.
   */
  lemma RegisterSiteMeans(s: State, id: Word32, begin: Word, end: Word, typeId: Word32)
    requires Reachable(s)
    ensures var (t, r) := Step(s, OpRegisterSite(id, begin, end, typeId));
            && r == Flag(id != 0 && id !in s.sites.types && 0 < begin < end && typeId in s.types.hashes
                         && Unclaimed(s.sites, begin, end))
            && (r == Flag(true) ==>
                  && t.sites.byStart == s.sites.byStart[begin := AllocationSite(id, begin, end, typeId, s.types.hashes[typeId])]
                  && t.sites.byId == s.sites.byId[id := begin]
                  && t.sites.types == s.sites.types[id := s.types.hashes[typeId]])
            && (r == Flag(false) ==> t.sites == s.sites)
            && t.types == s.types && t.arena == s.arena
  {
    if begin < end {
      UnclaimedMeans(s, begin, end);
    }
  }

  ghost predicate Unclaimed(t: SiteTable, begin: Word, end: Word) {
    forall b, pc :: begin <= pc < end ==> !t.Holds(b, pc)
  }

  /** Intervals are disjoint exactly when no program counter lies in both. */
  lemma UnclaimedMeans(s: State, begin: Word, end: Word)
    requires Reachable(s) && begin < end
    ensures s.sites.Free(begin, end) <==> Unclaimed(s.sites, begin, end)
  {
    ReachableInv(s);
    if Unclaimed(s.sites, begin, end) {
      forall b | b in s.sites.byStart
        ensures s.sites.byStart[b].Disjoint(begin, end)
      {
        assert s.sites.EntryOk(s.types, b);
        var first := if begin < b then b else begin;
        assert begin <= first < end ==> !s.sites.Holds(b, first);
      }
    }
  }
}
