/** What holds over whole runs of the allocation runtime, whatever threads do in between. */
module RuntimeRuns {
  import opened Machine
  import opened Arena
  import opened RuntimeSpec

  lemma RunFour(s: State, a: Op, b: Op, c: Op, d: Op)
    ensures Run(s, [a, b, c, d]) == Step(Step(Step(Step(s, a).0, b).0, c).0, d).0
  {
    RunOne(s, a);
    RunOne(Step(s, a).0, b);
    RunOne(Step(Step(s, a).0, b).0, c);
    RunOne(Step(Step(Step(s, a).0, b).0, c).0, d);
    RunAppend(s, [a], [b]);
    RunAppend(s, [a] + [b], [c]);
    RunAppend(s, [a] + [b] + [c], [d]);
    assert [a, b, c, d] == [a] + [b] + [c] + [d];
  }

  // ----- what a run can change

  /** Blocks once issued are only ever dropped, and no binding is ever changed. */
  ghost predicate Evolves(s: State, t: State) {
    && t.arena.base == s.arena.base && t.arena.capacity == s.arena.capacity
    && s.arena.used <= t.arena.used
    && s.arena.issued <= t.arena.issued
    && (forall k :: k in t.arena.live && t.arena.live[k] in s.arena.issued ==>
          k in s.arena.live && s.arena.live[k] == t.arena.live[k])
    && (forall i :: |s.arena.issued| <= i < |t.arena.issued| ==>
          s.arena.base + s.arena.used <= t.arena.issued[i].base)
    && t.types.Extends(s.types) && t.sites.Extends(s.sites)
  }

  lemma IssueEvolves(s: State, size: Word, hash: Word, site: Word32)
    requires s.Inv()
    ensures Evolves(s, s.WithArena(s.arena.Issue(size, hash, site)).0)
  {
  }

  lemma ReallocateEvolves(s: State, p: Word, size: Word)
    requires s.Inv()
    ensures Evolves(s, s.WithArena(s.arena.Reallocate(p, size)).0)
  {
    if p in s.arena.live && size != 0 {
      IssueEvolves(s, size, s.arena.live[p].typeHash, s.arena.live[p].siteId);
    }
  }

  lemma StepEvolves(s: State, op: Op)
    requires s.Inv()
    ensures Evolves(s, Step(s, op).0)
  {
    match op
    case OpRegisterType(id, hash) => RegisterTypeKeepsInv(s.types, id, hash);
    case OpRegisterSiteId(id, typeId) => RegisterSiteIdKeepsInv(s.types, s.sites, id, typeId);
    case OpRegisterSite(id, begin, end, typeId) =>
      RegisterSiteKeepsInv(s.types, s.sites, id, begin, end, typeId);
    case OpAllocate(size, typeId) =>
      if typeId in s.types.hashes {
        IssueEvolves(s, size, s.types.hashes[typeId], 0);
      }
    case OpAllocateFromSite(size, site) =>
      if site in s.sites.types {
        IssueEvolves(s, size, s.sites.types[site], site);
      }
    case OpAllocateFromPc(size, pc) =>
      if s.sites.At(pc).Some? {
        IssueEvolves(s, size, s.sites.At(pc).value.typeHash, s.sites.At(pc).value.id);
      }
    case OpRelease(p) =>
    case OpReallocate(p, size) => ReallocateEvolves(s, p, size);
  }

  lemma EvolvesOn(s: State, t: State, u: State)
    requires Evolves(s, t) && Evolves(t, u)
    ensures Evolves(s, u)
  {
    forall i | |s.arena.issued| <= i < |u.arena.issued|
      ensures s.arena.base + s.arena.used <= u.arena.issued[i].base
    {
      if i < |t.arena.issued| {
        assert u.arena.issued[i] == t.arena.issued[i];
      }
    }
  }

  lemma {:induction false} RunEvolves(s: State, ops: seq<Op>)
    requires s.Inv()
    ensures Evolves(s, Run(s, ops)) && Run(s, ops).Inv()
    decreases |ops|
  {
    if ops != [] {
      StepEvolves(s, ops[0]);
      StepKeepsInv(s, ops[0]);
      RunEvolves(Step(s, ops[0]).0, ops[1..]);
      EvolvesOn(s, Step(s, ops[0]).0, Run(s, ops));
    }
  }

  // ----- address stability

  /** Across a run, an address belongs to at most one object ever issued. */
  lemma OneObjectPerAddress(s: State, ops: seq<Op>, x: Allocation, y: Allocation, p: nat)
    requires Reachable(s)
    requires x in s.arena.issued && y in Run(s, ops).arena.issued
    requires x.Contains(p) && y.Contains(p)
    ensures x == y
  {
    ReachableInv(s);
    RunEvolves(s, ops);
    SameBlock(Run(s, ops).arena, x, y, p);
  }

  lemma LaterLiveWasLive(s: State, t: State, p: Word, k: Word)
    requires s.Inv() && t.Inv() && Evolves(s, t)
    requires p < s.arena.base + s.arena.used && t.arena.LiveHolds(k, p)
    ensures s.arena.LiveHolds(k, p)
  {
    var i :| 0 <= i < |t.arena.issued| && t.arena.issued[i] == t.arena.live[k];
    assert i < |s.arena.issued| ==> t.arena.issued[i] == s.arena.issued[i];
  }

  /** An address of the handed-out part of the arena that is untracked stays so for ever. */
  lemma UntrackedForever(s: State, ops: seq<Op>, p: Word)
    requires Reachable(s)
    requires p < s.arena.base + s.arena.used
    requires s.arena.LiveAt(p).None?
    ensures Run(s, ops).arena.LiveAt(p).None?
  {
    ReachableInv(s);
    RunEvolves(s, ops);
    if Run(s, ops).arena.LiveAt(p).Some? {
      var k :| Run(s, ops).arena.LiveHolds(k, p);
      LaterLiveWasLive(s, Run(s, ops), p, k);
    }
  }

  /** After `release(p)`, no address of the object is ever tracked again. */
  lemma ReleasedForever(s: State, p: Word, ops: seq<Op>, q: Word)
    requires Reachable(s) && p in s.arena.live && s.arena.live[p].Contains(q)
    ensures Run(Step(s, OpRelease(p)).0, ops).arena.LiveAt(q).None?
  {
    ReachableInv(s);
    RemovedIsUntracked(s.arena, p, q);
    StepReachable(s, OpRelease(p));
    UntrackedForever(Step(s, OpRelease(p)).0, ops, q);
  }

  lemma RemovedIsUntracked(a: Arena, p: Word, q: Word)
    requires a.Inv() && p in a.live && a.live[p].Contains(q)
    ensures a.Remove(p).LiveAt(q).None?
    ensures q < a.base + a.used
  {
    var i :| 0 <= i < |a.issued| && a.issued[i] == a.live[p];
    if a.Remove(p).LiveAt(q).Some? {
      var k :| a.Remove(p).LiveHolds(k, q);
      SameBlock(a, a.live[k], a.live[p], q);
      assert false;
    }
  }

  /** After a successful `reallocate(p, size)`, the old object is gone for ever as well. */
  lemma ReallocatedForever(s: State, p: Word, size: Word, ops: seq<Op>, q: Word)
    requires Reachable(s) && p in s.arena.live && s.arena.live[p].Contains(q)
    requires Step(s, OpReallocate(p, size)).1 != Address(0) || size == 0
    ensures Run(Step(s, OpReallocate(p, size)).0, ops).arena.LiveAt(q).None?
  {
    ReachableInv(s);
    var t := Step(s, OpReallocate(p, size)).0;
    StepReachable(s, OpReallocate(p, size));
    if size == 0 {
      RemovedIsUntracked(s.arena, p, q);
    } else {
      var old' := s.arena.live[p];
      IssueKeepsInv(s.arena, size, old'.typeHash, old'.siteId);
      IssueKeepsRecord(s.arena, size, old'.typeHash, old'.siteId, p);
      RemovedIsUntracked(s.arena.Issue(size, old'.typeHash, old'.siteId).0, p, q);
    }
    UntrackedForever(t, ops, q);
  }

  lemma IssueKeepsRecord(a: Arena, size: Word, hash: Word, site: Word32, k: Word)
    requires a.Inv() && k in a.live
    ensures k in a.Issue(size, hash, site).0.live && a.Issue(size, hash, site).0.live[k] == a.live[k]
  {
  }

  /** Two accepted checks of one address, at any two times, used the same type and object. */
  lemma AcceptedTypesAgree(s: State, ops: seq<Op>, p: Word, n: Word, h: Word, n': Word, h': Word)
    requires Reachable(s)
    requires s.Check(p, n, h) == Ok && Run(s, ops).Check(p, n', h') == Ok
    ensures h == h' && s.arena.LiveAt(p) == Run(s, ops).arena.LiveAt(p)
  {
    ReachableInv(s);
    RunEvolves(s, ops);
    var t := Run(s, ops);
    var j :| s.arena.LiveHolds(j, p) && s.arena.live[j] == s.arena.LiveAt(p).value;
    var k :| t.arena.LiveHolds(k, p) && t.arena.live[k] == t.arena.LiveAt(p).value;
    OneObjectPerAddress(s, ops, s.arena.live[j], t.arena.live[k], p);
  }

  // ----- provenance

  /** Entering by program counter or by the id of the site found there is the same grant. */
  lemma PcAndSiteAgree(s: State, size: Word, pc: Word)
    requires Reachable(s) && s.sites.At(pc).Some?
    ensures s.AllocateFromPc(size, pc) == s.AllocateFromSite(size, s.sites.At(pc).value.id)
  {
    ReachableInv(s);
    var b :| s.sites.Holds(b, pc) && s.sites.byStart[b] == s.sites.At(pc).value;
    assert s.sites.EntryOk(s.types, b);
  }

  /** A site found at `pc` is found there for ever. */
  lemma SiteForever(s: State, ops: seq<Op>, pc: Word)
    requires Reachable(s) && s.sites.At(pc).Some?
    ensures Run(s, ops).sites.At(pc) == s.sites.At(pc)
  {
    ReachableInv(s);
    RunEvolves(s, ops);
    var b :| s.sites.Holds(b, pc) && s.sites.byStart[b] == s.sites.At(pc).value;
    assert Run(s, ops).sites.Holds(b, pc);
    SiteAtIs(Run(s, ops).types, Run(s, ops).sites, b, pc);
  }

  /** What other threads do, then one reallocation. */
  datatype Turn = Turn(others: seq<Op>, size: Word)

  /** Successive reallocations, each on the pointer the one before returned, until one fails. */
  ghost function Chain(s: State, p: Word, turns: seq<Turn>): (State, Word)
    decreases |turns|
  {
    if turns == [] then (s, p)
    else
      var u := Run(s, turns[0].others);
      var (t, q) := u.WithArena(u.arena.Reallocate(p, turns[0].size));
      if q == 0 then (t, 0) else Chain(t, q, turns[1..])
  }

  /** An object that is live before and after a run is the same object. */
  lemma SurvivorIsKept(s: State, ops: seq<Op>, p: Word)
    requires Reachable(s) && p in s.arena.live && p in Run(s, ops).arena.live
    ensures Run(s, ops).arena.live[p] == s.arena.live[p]
  {
    ReachableInv(s);
    RunEvolves(s, ops);
    LiveHasSize(s.arena, p);
    LiveHasSize(Run(s, ops).arena, p);
    SameBlock(Run(s, ops).arena, s.arena.live[p], Run(s, ops).arena.live[p], p);
  }

  /**
   * A chain of reallocations that ends in a pointer keeps the type and site of its origin,
   * whatever other threads do before each of them, and leaves the origin untracked.
   */
  lemma {:induction false} ChainKeepsProvenance(s: State, p: Word, turns: seq<Turn>)
    requires Reachable(s) && p in s.arena.live
    requires Chain(s, p, turns).1 != 0
    ensures var (t, q) := Chain(s, p, turns);
            && Reachable(t) && q in t.arena.live
            && t.arena.live[q].typeHash == s.arena.live[p].typeHash
            && t.arena.live[q].siteId == s.arena.live[p].siteId
            && (turns != [] ==> t.arena.live[q].size == turns[|turns| - 1].size && t.arena.LiveAt(p).None?)
    decreases |turns|
  {
    if turns != [] {
      var u, t, q := ChainTurn(s, p, turns[0]);
      ChainKeepsProvenance(t, q, turns[1..]);
      ChainUntracked(t, q, turns[1..], p);
    }
  }

  /** The first turn of a chain: the states before and after its reallocation. */
  lemma ChainTurn(s: State, p: Word, turn: Turn) returns (u: State, t: State, q: Word)
    requires Reachable(s) && p in s.arena.live
    ensures u == Run(s, turn.others) && (t, q) == u.WithArena(u.arena.Reallocate(p, turn.size))
    ensures Reachable(t)
    ensures q != 0 ==>
              && q in t.arena.live && t.arena.live[q].size == turn.size
              && t.arena.live[q].typeHash == s.arena.live[p].typeHash
              && t.arena.live[q].siteId == s.arena.live[p].siteId
              && p < t.arena.base + t.arena.used && t.arena.LiveAt(p).None?
  {
    u := Run(s, turn.others);
    var op := OpReallocate(p, turn.size);
    t, q := Step(u, op).0, u.arena.Reallocate(p, turn.size).1;
    RunReachable(s, turn.others);
    StepReachable(u, op);
    assert t == u.WithArena(u.arena.Reallocate(p, turn.size)).0;
    if q != 0 {
      SurvivorIsKept(s, turn.others, p);
      MovedObject(u, p, turn.size);
    }
  }

  lemma MovedObject(u: State, p: Word, size: Word)
    requires Reachable(u) && p in u.arena.live && u.arena.Reallocate(p, size).1 != 0
    ensures var (t, q) := u.WithArena(u.arena.Reallocate(p, size));
            && q in t.arena.live
            && t.arena.live[q] == Allocation(q, size, u.arena.live[p].typeHash, u.arena.live[p].siteId)
            && p < t.arena.base + t.arena.used && t.arena.LiveAt(p).None?
  {
    ReachableInv(u);
    LiveHasSize(u.arena, p);
    FreshBlockIsNew(u.arena, p);
    ReallocatedForever(u, p, size, [], p);
    assert Run(Step(u, OpReallocate(p, size)).0, []) == Step(u, OpReallocate(p, size)).0;
  }

  lemma LiveHasSize(a: Arena, k: Word)
    requires a.Inv() && k in a.live
    ensures a.live[k].size > 0 && a.live[k].base == k
  {
    var i :| 0 <= i < |a.issued| && a.issued[i] == a.live[k];
  }

  lemma FreshBlockIsNew(a: Arena, k: Word)
    requires a.Inv() && k in a.live
    ensures k < a.base + a.used
  {
    LiveHasSize(a, k);
    var i :| 0 <= i < |a.issued| && a.issued[i] == a.live[k];
  }

  /** A chain is a run, so what is untracked before it is untracked after it. */
  lemma {:induction false} ChainUntracked(s: State, p: Word, turns: seq<Turn>, x: Word)
    requires Reachable(s) && x < s.arena.base + s.arena.used && s.arena.LiveAt(x).None?
    ensures Chain(s, p, turns).0.arena.LiveAt(x).None?
    decreases |turns|
  {
    if turns != [] {
      var ops := turns[0].others + [OpReallocate(p, turns[0].size)];
      var u := Run(s, turns[0].others);
      RunAppend(s, turns[0].others, [OpReallocate(p, turns[0].size)]);
      RunOne(u, OpReallocate(p, turns[0].size));
      assert Run(s, ops) == u.WithArena(u.arena.Reallocate(p, turns[0].size)).0;
      RunReachable(s, ops);
      ReachableInv(s);
      RunEvolves(s, ops);
      UntrackedForever(s, ops, x);
      ChainUntracked(Run(s, ops), u.arena.Reallocate(p, turns[0].size).1, turns[1..], x);
    }
  }

  // ----- accounting

  /** With their padding, issued blocks tile the handed-out part of the arena in every run. */
  lemma {:induction false} RunTiles(base: Word, capacity: Word, ops: seq<Op>)
    ensures Run(Initial(base, capacity), ops).arena.Tiled()
  {
    RunKeepsTiling(Initial(base, capacity), ops);
  }

  lemma {:induction false} RunKeepsTiling(s: State, ops: seq<Op>)
    requires s.arena.Tiled()
    ensures Run(s, ops).arena.Tiled()
    decreases |ops|
  {
    if ops != [] {
      StepKeepsTiling(s, ops[0]);
      RunKeepsTiling(Step(s, ops[0]).0, ops[1..]);
    }
  }

  lemma StepKeepsTiling(s: State, op: Op)
    requires s.arena.Tiled()
    ensures Step(s, op).0.arena.Tiled()
  {
    match op
    case OpRegisterType(_, _) =>
    case OpRegisterSiteId(_, _) =>
    case OpRegisterSite(_, _, _, _) =>
    case OpAllocate(size, typeId) =>
      if typeId in s.types.hashes {
        IssueKeepsTiling(s.arena, size, s.types.hashes[typeId], 0);
      }
    case OpAllocateFromSite(size, site) =>
      if site in s.sites.types {
        IssueKeepsTiling(s.arena, size, s.sites.types[site], site);
      }
    case OpAllocateFromPc(size, pc) =>
      if s.sites.At(pc).Some? {
        IssueKeepsTiling(s.arena, size, s.sites.At(pc).value.typeHash, s.sites.At(pc).value.id);
      }
    case OpRelease(p) =>
    case OpReallocate(p, size) =>
      if p in s.arena.live {
        IssueKeepsTiling(s.arena, size, s.arena.live[p].typeHash, s.arena.live[p].siteId);
      }
  }

  /** A sum of rounded sizes is a multiple of 8, and at least 8 for each block of positive size. */
  lemma {:induction false} SumBounds(blocks: seq<Allocation>)
    requires forall i :: 0 <= i < |blocks| ==> blocks[i].size > 0
    ensures SumRounded(blocks) % 8 == 0
    ensures 8 * |blocks| <= SumRounded(blocks)
  {
    if blocks != [] {
      SumBounds(blocks[..|blocks| - 1]);
    }
  }

  lemma ReachableTiled(s: State)
    requires Reachable(s)
    ensures s.arena.Tiled()
  {
    var base: Word, capacity: Word, ops :| s == Run(Initial(base, capacity), ops);
    RunTiles(base, capacity, ops);
  }

  /** Accounting of every reachable state: what is used, its alignment, and the room it leaves. */
  lemma UsedAccounts(s: State)
    requires Reachable(s)
    ensures s.arena.used == SumRounded(s.arena.issued)
    ensures s.arena.used % 8 == 0
    ensures 8 * |s.arena.issued| <= s.arena.used <= s.arena.capacity
    ensures s.arena.issued != [] ==> s.arena.base + s.arena.used <= UINTPTR_MAX
  {
    ReachableInv(s);
    ReachableTiled(s);
    SumBounds(s.arena.issued);
  }

  /** Padding included, blocks issued at any two times of a run do not overlap. */
  lemma PaddedBlocksDisjoint(s: State, i: nat, j: nat)
    requires Reachable(s) && i < j < |s.arena.issued|
    ensures s.arena.issued[i].End() <= s.arena.issued[j].base
  {
    ReachableTiled(s);
    SumMonotone(s.arena.issued, i + 1, j);
    SumStep(s.arena.issued, i);
  }

  /** Every block starts at a multiple of 8 from the base of the arena. */
  lemma BlocksAligned(s: State, j: nat)
    requires Reachable(s) && j < |s.arena.issued|
    ensures s.arena.issued[j].base == s.arena.base + SumRounded(s.arena.issued[..j])
    ensures SumRounded(s.arena.issued[..j]) % 8 == 0
  {
    ReachableTiled(s);
    IssuedHaveSize(s);
    SumBounds(s.arena.issued[..j]);
  }

  lemma IssuedHaveSize(s: State)
    requires Reachable(s)
    ensures forall i :: 0 <= i < |s.arena.issued| ==> s.arena.issued[i].size > 0
  {
    ReachableInv(s);
  }

  lemma SumStep(blocks: seq<Allocation>, i: nat)
    requires i < |blocks|
    ensures SumRounded(blocks[..i + 1]) == SumRounded(blocks[..i]) + RoundUp(blocks[i].size)
  {
    assert blocks[..i + 1][..i] == blocks[..i];
  }

  lemma {:induction false} SumMonotone(blocks: seq<Allocation>, i: nat, j: nat)
    requires i <= j <= |blocks|
    ensures SumRounded(blocks[..i]) <= SumRounded(blocks[..j])
    decreases j
  {
    if i < j {
      SumMonotone(blocks, i, j - 1);
      assert blocks[..j][..j - 1] == blocks[..j - 1];
    }
  }

  /** How many calls of a run were answered with a pointer. */
  ghost function Grants(s: State, ops: seq<Op>): nat
    decreases |ops|
  {
    if ops == [] then 0
    else
      var (t, reply) := Step(s, ops[0]);
      (if reply.Address? && reply.p != 0 then 1 else 0) + Grants(t, ops[1..])
  }

  lemma {:induction false} GrantsAreIssued(s: State, ops: seq<Op>)
    ensures |s.arena.issued| + Grants(s, ops) <= |Run(s, ops).arena.issued|
    decreases |ops|
  {
    if ops != [] {
      GrantsAreIssued(Step(s, ops[0]).0, ops[1..]);
    }
  }

  /** At most `capacity / 8` allocations succeed in any run. */
  lemma GrantsAreBounded(base: Word, capacity: Word, ops: seq<Op>)
    ensures Grants(Initial(base, capacity), ops) <= capacity / 8
  {
    GrantsAreIssued(Initial(base, capacity), ops);
    UsedAccounts(Run(Initial(base, capacity), ops));
    RunKeepsCapacity(Initial(base, capacity), ops);
  }

  lemma {:induction false} RunKeepsCapacity(s: State, ops: seq<Op>)
    ensures Run(s, ops).arena.capacity == s.arena.capacity
    ensures Run(s, ops).arena.base == s.arena.base
    decreases |ops|
  {
    if ops != [] {
      RunKeepsCapacity(Step(s, ops[0]).0, ops[1..]);
    }
  }

  /**
   * A grant is refused, with 0 and no change, exactly when the request does not fit; but an
   * arena at address 0 also answers 0 to its very first grant, which it does record.
   */
  lemma ZeroReply(s: State, size: Word, hash: Word, site: Word32)
    requires Reachable(s)
    ensures var (a, p) := s.arena.Issue(size, hash, site);
            && (a == s.arena <==> !s.arena.Fits(size))
            && (p == 0 <==> !s.arena.Fits(size) || s.arena.base + s.arena.used == 0)
  {
  }

  /** With an arena at address 0 the first grant is recorded although the caller is told 0. */
  lemma ZeroBaseIsRecorded()
    ensures var s := Run(Initial(0, 64), [OpRegisterType(1, 5)]);
            && s.Allocate(8, 1).1 == 0
            && 0 in s.Allocate(8, 1).0.arena.live
  {
    var s0 := Initial(0, 64);
    var op := OpRegisterType(1, 5);
    RunOne(s0, op);
  }

  /** Room only shrinks: a size that does not fit never fits again. */
  lemma NeverFitsAgain(s: State, ops: seq<Op>, size: Word)
    requires Reachable(s) && !s.arena.Fits(size)
    ensures !Run(s, ops).arena.Fits(size)
  {
    ReachableInv(s);
    RunEvolves(s, ops);
  }

  // ----- the meaning of checks

  /** `check` accepts exactly the ranges inside one live object of the type; none of them wraps. */
  lemma CheckAccepts(s: State, p: Word, bytes: Word, hash: Word)
    requires Reachable(s)
    ensures s.Check(p, bytes, hash) == Ok <==>
            exists k: Word :: s.arena.LiveHolds(k, p) && s.arena.live[k].typeHash == hash
                        && p + bytes <= k + s.arena.live[k].size
    ensures s.Check(p, bytes, hash) == Ok ==> p + bytes <= UINTPTR_MAX
  {
    ReachableInv(s);
    forall k: Word | s.arena.LiveHolds(k, p)
      ensures s.arena.LiveAt(p) == Some(s.arena.live[k])
      ensures k + s.arena.live[k].size <= UINTPTR_MAX
    {
      LiveAtIs(s.arena, k, p);
      var i :| 0 <= i < |s.arena.issued| && s.arena.issued[i] == s.arena.live[k];
    }
  }

  /** `check` and `remaining_bytes` agree. */
  lemma CheckMatchesRemaining(s: State, p: Word, bytes: Word, hash: Word)
    requires Reachable(s)
    ensures s.Check(p, bytes, hash) == Ok <==>
            s.Remaining(p, hash).0 == Ok && bytes <= s.Remaining(p, hash).1.value
    ensures s.Remaining(p, hash).0 == Ok ==> s.Remaining(p, hash).1.value > 0
    ensures s.Check(p, bytes, hash) == Untracked <==> s.Remaining(p, hash).0 == Untracked
  {
    if s.arena.LiveAt(p).Some? {
      var k :| s.arena.LiveHolds(k, p) && s.arena.live[k] == s.arena.LiveAt(p).value;
    }
  }

  /** An accepted range accepts every subrange that starts inside the object. */
  lemma SubrangeAccepted(s: State, p: Word, n: Word, hash: Word, q: Word, m: Word)
    requires Reachable(s) && s.Check(p, n, hash) == Ok
    requires p <= q && q + m <= p + n
    requires s.arena.LiveAt(p).value.Contains(q)
    ensures s.Check(q, m, hash) == Ok
  {
    ReachableInv(s);
    var k :| s.arena.LiveHolds(k, p) && s.arena.live[k] == s.arena.LiveAt(p).value;
    LiveAtIs(s.arena, k, q);
  }
}
