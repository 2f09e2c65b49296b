/** The binding between a policy and a backend: which site may answer an allocation callback. */
module PolicyRuntimes {
  import opened Machine
  import opened Arena
  import opened RuntimeSpec
  import opened RuntimeRuns
  import opened StepMeaning
  import opened TrustedRuntime
  import opened PolicyTables
  import opened PolicyRegistration

  class PolicyRuntime {
    const runtime: Runtime

    constructor (arenaBase: Word, arenaSize: Word)
      ensures runtime.Valid() && fresh(runtime) && runtime.model == Initial(arenaBase, arenaSize)
    {
      runtime := new Runtime(arenaBase, arenaSize);
    }

    /** Types first, then the sites at the addresses the backend resolves. */
    method Initialize(ids: seq<TypeEntry>, sites: seq<SiteRecord>, resolve: Resolver) returns (ok: bool)
      requires runtime.Valid() && SitesNamed(ids, sites)
      modifies runtime
      ensures runtime.Valid()
      ensures ok <==>
              && AllOk(old(runtime.model), TypeOps(ids))
              && AllOk(Run(old(runtime.model), TypeOps(ids)), SiteOps(RecordedSites(ids, sites, resolve)))
      ensures if AllOk(old(runtime.model), TypeOps(ids))
              then Stopped(Run(old(runtime.model), TypeOps(ids)), SiteOps(RecordedSites(ids, sites, resolve)),
                           runtime.model, ok)
              else runtime.model == Run(old(runtime.model), TypeOps(ids))
      ensures ok ==> runtime.model == Initialized(old(runtime.model), ids, RecordedSites(ids, sites, resolve))
    {
      ok := RegisterTypes(runtime, ids);
      if ok {
        ok := RegisterSites(runtime, ids, sites, resolve);
      }
    }

    /** `pc` and `nextPc` are the two program counters the backend reports for the callback. */
    method AllocateFromCallback(pc: Word, nextPc: Word, size: Word) returns (result: Word)
      requires runtime.Valid()
      modifies runtime
      ensures runtime.Valid()
      ensures runtime.model == Callback(old(runtime.model), pc, nextPc, size, []).0
      ensures result == Callback(old(runtime.model), pc, nextPc, size, []).1
      ensures old(runtime.model).sites.At(pc).Some? && !RecordsAtZero(old(runtime.model).arena, size) ==>
                Answered(old(runtime.model), runtime.model, result, pc, size)
      ensures old(runtime.model).sites.At(pc).None? ==>
                if nextPc != 0 && nextPc != pc
                then Answered(old(runtime.model), runtime.model, result, nextPc, size)
                else runtime.model == old(runtime.model) && result == 0
    {
      DirectCallback(runtime.model, pc, nextPc, size);
      result := runtime.AllocateFromPc(size, pc);
      if result != 0 {
        return;
      }
      assert Run(runtime.model, []) == runtime.model;
      if nextPc != 0 && nextPc != pc {
        result := runtime.AllocateFromPc(size, nextPc);
      }
    }
  }

  ghost function Initialized(s: State, ids: seq<TypeEntry>, sites: seq<AllocationSite>): State {
    Run(Run(s, TypeOps(ids)), SiteOps(sites))
  }

  /** The state a second attempt starts from, when other threads run `env` after the first. */
  ghost function AfterFirst(s: State, pc: Word, size: Word, env: seq<Op>): State {
    Run(s.AllocateFromPc(size, pc).0, env)
  }

  /** Two separately locked calls, with the steps `env` of other threads between them. */
  ghost function Callback(s: State, pc: Word, nextPc: Word, size: Word, env: seq<Op>): (State, Word) {
    var (t, p) := s.AllocateFromPc(size, pc);
    if p != 0 then (t, p)
    else if nextPc != 0 && nextPc != pc then AfterFirst(s, pc, size, env).AllocateFromPc(size, nextPc)
    else (AfterFirst(s, pc, size, env), 0)
  }

  /** The callback goes on to a second attempt, and that attempt inserts a record. */
  ghost predicate SecondInserts(s: State, pc: Word, nextPc: Word, size: Word, env: seq<Op>) {
    && s.AllocateFromPc(size, pc).1 == 0
    && nextPc != 0 && nextPc != pc
    && AfterFirst(s, pc, size, env).AllocateFromPc(size, nextPc).0 != AfterFirst(s, pc, size, env)
  }

  /** The first attempt creates a record at address 0, which its caller reads as a failure. */
  predicate RecordsAtZero(a: Arena, size: Word) {
    a.Fits(size) && a.base + a.used == 0
  }

  lemma AttemptInserts(s: State, pc: Word, size: Word)
    requires Reachable(s)
    ensures s.AllocateFromPc(size, pc).0 != s <==> s.sites.At(pc).Some? && s.arena.Fits(size)
    ensures s.AllocateFromPc(size, pc).1 == 0 <==>
            s.sites.At(pc).None? || !s.arena.Fits(size) || RecordsAtZero(s.arena, size)
  {
    if s.sites.At(pc).Some? {
      var site := s.sites.At(pc).value;
      ZeroReply(s, size, site.typeHash, site.id);
    }
  }

  /**
   * When `pc` lies in a registered site, the second attempt inserts a record, under whatever
   * other threads do in between, exactly when the first one did so at address 0.
   */
  lemma SecondAttempt(s: State, pc: Word, nextPc: Word, size: Word, env: seq<Op>)
    requires Reachable(s) && s.sites.At(pc).Some?
    ensures SecondInserts(s, pc, nextPc, size, env) <==>
            && RecordsAtZero(s.arena, size)
            && nextPc != 0 && nextPc != pc
            && AfterFirst(s, pc, size, env).sites.At(nextPc).Some?
            && AfterFirst(s, pc, size, env).arena.Fits(size)
  {
    StepReachable(s, OpAllocateFromPc(size, pc));
    var t := s.AllocateFromPc(size, pc).0;
    assert t == Step(s, OpAllocateFromPc(size, pc)).0;
    RunReachable(t, env);
    AttemptInserts(s, pc, size);
    AttemptInserts(Run(t, env), nextPc, size);
    if !s.arena.Fits(size) {
      NeverFitsAgain(t, env, size);
    }
  }

  /** The state after a callback, and its answer, when the first attempt makes no record at 0. */
  lemma UsualCallback(s: State, pc: Word, nextPc: Word, size: Word, env: seq<Op>)
    requires Reachable(s) && s.sites.At(pc).Some?
    requires !RecordsAtZero(s.arena, size)
    ensures var site := s.sites.At(pc).value;
            var (t, p) := Callback(s, pc, nextPc, size, env);
            && (p != 0 <==> s.arena.Fits(size))
            && (p != 0 ==> t == s.AllocateFromSite(size, site.id).0 && GrantedFor(t, p, site, size))
            && (p == 0 ==> t == AfterFirst(s, pc, size, env) == Run(s, env))
  {
    AttemptInserts(s, pc, size);
    SecondAttempt(s, pc, nextPc, size, env);
    PcAndSiteAgree(s, size, pc);
    StepReachable(s, OpAllocateFromPc(size, pc));
    var u := s.AllocateFromPc(size, pc).0;
    assert u == Step(s, OpAllocateFromPc(size, pc)).0;
    RunReachable(u, env);
    AttemptInserts(AfterFirst(s, pc, size, env), nextPc, size);
  }

  /** `p` is a live object of the size asked for, charged to the site and of its type. */
  ghost predicate GrantedFor(t: State, p: Word, site: AllocationSite, size: Word) {
    p in t.arena.live && t.arena.live[p] == Allocation(p, size, site.typeHash, site.id)
  }

  /** `t` and `p` are the answer at `pc`: a grant for the site that holds it, or 0 and nothing new. */
  ghost predicate Answered(u: State, t: State, p: Word, pc: Word, size: Word) {
    if u.sites.At(pc).Some? && HasRoom(u.arena, size)
    then Granted(u, t, p, size, u.sites.At(pc).value.typeHash, u.sites.At(pc).value.id)
    else t == u && p == 0
  }

  lemma AttemptAnswers(u: State, pc: Word, size: Word)
    requires Reachable(u)
    ensures Answered(u, u.AllocateFromPc(size, pc).0, u.AllocateFromPc(size, pc).1, pc, size)
  {
    if u.sites.At(pc).Some? {
      IssueMeans(u, size, u.sites.At(pc).value.typeHash, u.sites.At(pc).value.id);
    }
  }

  /**
   * When `pc` lies in no site, the first attempt does nothing, and the second program counter, if
   * it is another one and not 0, is answered in the state that the other threads leave.
   */
  lemma FallbackCallback(s: State, pc: Word, nextPc: Word, size: Word, env: seq<Op>)
    requires Reachable(s) && s.sites.At(pc).None?
    ensures Reachable(Run(s, env)) && AfterFirst(s, pc, size, env) == Run(s, env)
    ensures var (t, p) := Callback(s, pc, nextPc, size, env);
            if nextPc != 0 && nextPc != pc
            then Answered(Run(s, env), t, p, nextPc, size)
            else t == Run(s, env) && p == 0
    ensures var u, (t, p) := Run(s, env), Callback(s, pc, nextPc, size, env);
            p != 0 <==>
              && nextPc != 0 && nextPc != pc && u.sites.At(nextPc).Some?
              && u.arena.Fits(size) && !RecordsAtZero(u.arena, size)
    ensures var u, (t, p) := Run(s, env), Callback(s, pc, nextPc, size, env);
            p != 0 ==> GrantedFor(t, p, u.sites.At(nextPc).value, size)
  {
    RunReachable(s, env);
    RoomMeans(Run(s, env).arena, size);
    AttemptAnswers(Run(s, env), nextPc, size);
  }

  /** Without interference, the site of `pc` answers if there is one, and that of `nextPc` otherwise. */
  lemma DirectCallback(s: State, pc: Word, nextPc: Word, size: Word)
    requires Reachable(s)
    ensures var (t, p) := Callback(s, pc, nextPc, size, []);
            && (s.sites.At(pc).Some? && !RecordsAtZero(s.arena, size) ==> Answered(s, t, p, pc, size))
            && (s.sites.At(pc).None? && nextPc != 0 && nextPc != pc ==> Answered(s, t, p, nextPc, size))
            && (s.sites.At(pc).None? && (nextPc == 0 || nextPc == pc) ==> t == s && p == 0)
  {
    assert Run(s, []) == s;
    if s.sites.At(pc).None? {
      FallbackCallback(s, pc, nextPc, size, []);
    } else if !RecordsAtZero(s.arena, size) {
      AttemptInserts(s, pc, size);
      AttemptAnswers(s, pc, size);
      RoomMeans(s.arena, size);
      AttemptAnswers(s, nextPc, size);
    }
  }

  /**
   * When the first attempt makes a record at address 0, the callback goes on: the record stays in
   * the state it leaves to other threads, and the second program counter is answered as well.
   */
  lemma ZeroCallback(s: State, pc: Word, nextPc: Word, size: Word, env: seq<Op>)
    requires Reachable(s) && s.sites.At(pc).Some? && RecordsAtZero(s.arena, size)
    ensures var first := s.AllocateFromPc(size, pc).0;
            && Granted(s, first, 0, size, s.sites.At(pc).value.typeHash, s.sites.At(pc).value.id)
            && AfterFirst(s, pc, size, env) == Run(first, env)
    ensures var u, (t, p) := AfterFirst(s, pc, size, env), Callback(s, pc, nextPc, size, env);
            if nextPc != 0 && nextPc != pc
            then Answered(u, t, p, nextPc, size)
            else t == u && p == 0
  {
    AttemptAnswers(s, pc, size);
    RoomMeans(s.arena, size);
    FirstUsesRoom(s, pc, size, env);
    AttemptAnswers(AfterFirst(s, pc, size, env), nextPc, size);
  }

  /** The pointer `p` is to memory that is not charged to the site `id`. */
  ghost predicate Foreign(t: State, p: Word, id: Word32) {
    p != 0 && !(p in t.arena.live && t.arena.live[p].siteId == id)
  }

  /** The second program counter is tried, lies in a site other than `id`, and its request fits. */
  ghost predicate OtherSiteAnswers(u: State, pc: Word, nextPc: Word, size: Word, id: Word32) {
    && nextPc != 0 && nextPc != pc
    && u.sites.At(nextPc).Some? && u.sites.At(nextPc).value.id != id
    && u.arena.Fits(size)
  }

  /**
   * When `pc` lies in a registered site, the callback hands out memory that is not charged to that
   * site, under whatever other threads do in between, exactly when its first attempt made a record
   * at address 0 and the second program counter lies in another site with room for the request.
   */
  lemma AuthorityIsKept(s: State, pc: Word, nextPc: Word, size: Word, env: seq<Op>)
    requires Reachable(s) && s.sites.At(pc).Some?
    ensures var id := s.sites.At(pc).value.id;
            var (t, p) := Callback(s, pc, nextPc, size, env);
            Foreign(t, p, id) <==>
              RecordsAtZero(s.arena, size)
              && OtherSiteAnswers(AfterFirst(s, pc, size, env), pc, nextPc, size, id)
  {
    if !RecordsAtZero(s.arena, size) {
      UsualCallback(s, pc, nextPc, size, env);
    } else {
      AttemptInserts(s, pc, size);
      if nextPc != 0 && nextPc != pc {
        var u := AfterFirst(s, pc, size, env);
        FirstUsesRoom(s, pc, size, env);
        SecondGrant(u, nextPc, size);
      }
    }
  }

  /** Once a record was made, no later block starts at address 0. */
  lemma FirstUsesRoom(s: State, pc: Word, size: Word, env: seq<Op>)
    requires Reachable(s) && s.sites.At(pc).Some? && RecordsAtZero(s.arena, size)
    ensures Reachable(AfterFirst(s, pc, size, env))
    ensures AfterFirst(s, pc, size, env).arena.base + AfterFirst(s, pc, size, env).arena.used > 0
  {
    StepReachable(s, OpAllocateFromPc(size, pc));
    var u := s.AllocateFromPc(size, pc).0;
    assert u == Step(s, OpAllocateFromPc(size, pc)).0;
    ReachableInv(u);
    RunReachable(u, env);
    RunEvolves(u, env);
  }

  /** What an attempt answers when no block can start at address 0. */
  lemma SecondGrant(u: State, pc: Word, size: Word)
    requires Reachable(u) && u.arena.base + u.arena.used > 0
    ensures var (t, p) := u.AllocateFromPc(size, pc);
            && (p != 0 <==> u.sites.At(pc).Some? && u.arena.Fits(size))
            && (p != 0 ==> p in t.arena.live
                           && GrantedFor(t, p, u.sites.At(pc).value, size))
  {
    AttemptInserts(u, pc, size);
  }

  /** Whatever `pc` is, exactly when one callback inserts two records. */
  lemma AtMostOneRecord(s: State, pc: Word, nextPc: Word, size: Word, env: seq<Op>)
    requires Reachable(s)
    ensures s.AllocateFromPc(size, pc).0 != s && SecondInserts(s, pc, nextPc, size, env) <==>
            && s.sites.At(pc).Some? && RecordsAtZero(s.arena, size)
            && nextPc != 0 && nextPc != pc
            && AfterFirst(s, pc, size, env).sites.At(nextPc).Some?
            && AfterFirst(s, pc, size, env).arena.Fits(size)
  {
    AttemptInserts(s, pc, size);
    if s.sites.At(pc).Some? {
      SecondAttempt(s, pc, nextPc, size, env);
    }
  }

  /** Two types, with site 7 in [16, 32) for the first and site 8 in [48, 64) for the second. */
  const TWO_SITES: seq<Op> :=
    [OpRegisterType(1, 5), OpRegisterType(2, 6), OpRegisterSite(7, 16, 32, 1), OpRegisterSite(8, 48, 64, 2)]

  lemma TwoSitesState(base: Word)
    requires base <= 1000
    ensures Run(Initial(base, 64), TWO_SITES) ==
            State(Arena(base, 64, 0, map[], []),
                  TypeTable(map[1 := 5, 2 := 6], map[5 := 1, 6 := 2]),
                  SiteTable(map[16 := AllocationSite(7, 16, 32, 1, 5), 48 := AllocationSite(8, 48, 64, 2, 6)],
                            map[7 := 16, 8 := 48], map[7 := 5, 8 := 6]))
  {
    RunFour(Initial(base, 64), TWO_SITES[0], TWO_SITES[1], TWO_SITES[2], TWO_SITES[3]);
  }

  /** At address 0 the authority does change: a callback from site 7 obtains memory of site 8. */
  lemma ZeroBaseChangesAuthority()
    ensures var s := Run(Initial(0, 64), TWO_SITES);
            var (t, p) := Callback(s, 16, 48, 8, []);
            && s.sites.At(16).Some? && s.sites.At(16).value.id == 7
            && p == 8 && t.arena.live[8].siteId == 8
            && 0 in t.arena.live && t.arena.live[0].siteId == 7
  {
    var s := Run(Initial(0, 64), TWO_SITES);
    FirstAtZero();
    var t := s.AllocateFromPc(8, 16).0;
    assert Run(t, []) == t;
    assert t.sites.Holds(48, 48);
    assert t.sites.At(48) == Some(t.sites.byStart[48]);
  }

  lemma FirstAtZero()
    ensures var s := Run(Initial(0, 64), TWO_SITES);
            && s.sites.At(16) == Some(AllocationSite(7, 16, 32, 1, 5))
            && s.sites.byStart.Keys == {16, 48} && s.sites.byStart[48] == AllocationSite(8, 48, 64, 2, 6)
            && s.arena.live == map[] && s.arena.used == 0 && s.arena.base == 0 && s.arena.capacity == 64
            && s.arena.Issue(8, 5, 7).0.live == map[0 := Allocation(0, 8, 5, 7)]
            && s.arena.Issue(8, 5, 7).0.used == 8 && s.arena.Issue(8, 5, 7).1 == 0
  {
    TwoSitesState(0);
    var s := Run(Initial(0, 64), TWO_SITES);
    IssueAtZero(s.arena);
    SiteAtSixteen(s.sites);
  }

  lemma SiteAtSixteen(t: SiteTable)
    requires t.byStart == map[16 := AllocationSite(7, 16, 32, 1, 5), 48 := AllocationSite(8, 48, 64, 2, 6)]
    ensures t.At(16) == Some(AllocationSite(7, 16, 32, 1, 5))
    ensures t.byStart.Keys == {16, 48} && t.byStart[48] == AllocationSite(8, 48, 64, 2, 6)
  {
    assert t.Holds(16, 16);
  }

  lemma IssueAtZero(a: Arena)
    requires a.base == 0 && a.capacity == 64 && a.used == 0 && a.live == map[]
    ensures a.Issue(8, 5, 7).0.live == map[0 := Allocation(0, 8, 5, 7)]
    ensures a.Issue(8, 5, 7).0.used == 8 && a.Issue(8, 5, 7).1 == 0
  {
    assert RoundUp(8) == 8;
  }
}
