/** The window checks that generated policy headers put on top of `Runtime::check`. */
module AccessChecks {
  import opened Machine
  import opened Arena
  import opened RuntimeSpec
  import opened RuntimeRuns
  import opened TrustedRuntime

  datatype AccessPolicy = AccessPolicy(typeHash: Word, offset: Word, bytes: Word)

  datatype CheckedAccess = CheckedAccess(result: CheckResult, address: Word, bytes: Word)

  /** The verdict on the window of `bytes` bytes at `offset` from `base`, with no wrap-around. */
  ghost function WindowVerdict(s: State, base: Word, offset: Word, bytes: Word, hash: Word): CheckResult {
    if offset + bytes > SIZE_MAX then OutOfBounds else s.Check(base, offset + bytes, hash)
  }

  method CheckAccess(runtime: Runtime, base: Word, policy: AccessPolicy) returns (r: CheckedAccess)
    requires runtime.Valid()
    ensures r.result == WindowVerdict(runtime.model, base, policy.offset, policy.bytes, policy.typeHash)
    ensures r.address == if r.result == Ok then base + policy.offset else 0
    ensures r.bytes == if r.result == Ok then policy.bytes else 0
  {
    if policy.offset > SIZE_MAX - policy.bytes {
      return CheckedAccess(OutOfBounds, 0, 0);
    }
    var extent := policy.offset + policy.bytes;
    var result := runtime.Check(base, extent, policy.typeHash);
    if result != Ok {
      return CheckedAccess(result, 0, 0);
    }
    CheckAccepts(runtime.model, base, extent, policy.typeHash);
    return CheckedAccess(result, base + policy.offset, policy.bytes);
  }

  /** For uses whose length is only known at run time; such a policy must declare no length. */
  method CheckDynamicAccess(runtime: Runtime, base: Word, dynamicBytes: Word, policy: AccessPolicy)
    returns (r: CheckedAccess)
    requires runtime.Valid()
    ensures r.result ==
            if policy.bytes != 0 then OutOfBounds
            else WindowVerdict(runtime.model, base, policy.offset, dynamicBytes, policy.typeHash)
    ensures r.address == if r.result == Ok then base + policy.offset else 0
    ensures r.bytes == if r.result == Ok then dynamicBytes else 0
  {
    if policy.bytes != 0 || policy.offset > SIZE_MAX - dynamicBytes {
      return CheckedAccess(OutOfBounds, 0, 0);
    }
    var extent := policy.offset + dynamicBytes;
    var result := runtime.Check(base, extent, policy.typeHash);
    if result != Ok {
      return CheckedAccess(result, 0, 0);
    }
    CheckAccepts(runtime.model, base, extent, policy.typeHash);
    return CheckedAccess(result, base + policy.offset, dynamicBytes);
  }

  /** The check of the wasm headers: a declared length wins over the run-time one. */
  method CheckWasm(runtime: Runtime, base: Word, dynamicBytes: Word, policy: AccessPolicy)
    returns (r: CheckResult)
    requires runtime.Valid()
    ensures r == WindowVerdict(runtime.model, base, policy.offset,
                               if policy.bytes != 0 then policy.bytes else dynamicBytes, policy.typeHash)
  {
    var bytes := if policy.bytes != 0 then policy.bytes else dynamicBytes;
    if policy.offset > SIZE_MAX - bytes {
      return OutOfBounds;
    }
    r := runtime.Check(base, policy.offset + bytes, policy.typeHash);
  }

  /** The object of type `hash` holding `base` also holds all of `[base + offset, base + offset + bytes)`. */
  ghost predicate WindowInside(s: State, k: Word, base: nat, offset: nat, bytes: nat, hash: Word) {
    && s.arena.LiveHolds(k, base)
    && s.arena.live[k].typeHash == hash
    && base + offset + bytes <= k + s.arena.live[k].size
  }

  /**
   * A window is accepted exactly when one live object of the type holds `base` and the whole
   * window in unbounded arithmetic; that object is the only one, and nothing wraps.
   */
  lemma WindowAccepted(s: State, base: Word, offset: Word, bytes: Word, hash: Word)
    requires Reachable(s)
    ensures WindowVerdict(s, base, offset, bytes, hash) == Ok <==>
            exists k: Word :: WindowInside(s, k, base, offset, bytes, hash)
    ensures WindowVerdict(s, base, offset, bytes, hash) == Ok ==> base + offset + bytes <= UINTPTR_MAX
    ensures forall j: Word, k: Word ::
              WindowInside(s, j, base, offset, bytes, hash) && s.arena.LiveHolds(k, base) ==> j == k
  {
    ReachableInv(s);
    if offset + bytes <= SIZE_MAX {
      CheckAccepts(s, base, offset + bytes, hash);
      forall k: Word | s.arena.LiveHolds(k, base) && s.arena.live[k].typeHash == hash
                       && base + (offset + bytes) <= k + s.arena.live[k].size
        ensures WindowInside(s, k, base, offset, bytes, hash)
      {
      }
      forall k: Word | WindowInside(s, k, base, offset, bytes, hash)
        ensures WindowVerdict(s, base, offset, bytes, hash) == Ok
      {
        assert base + (offset + bytes) <= k + s.arena.live[k].size;
      }
    } else {
      forall k: Word
        ensures !WindowInside(s, k, base, offset, bytes, hash)
      {
        ObjectsDoNotWrap(s.arena, k);
      }
    }
    forall j: Word, k: Word | WindowInside(s, j, base, offset, bytes, hash) && s.arena.LiveHolds(k, base)
      ensures j == k
    {
      SameBlock(s.arena, s.arena.live[j], s.arena.live[k], base);
    }
  }

  lemma ObjectsDoNotWrap(a: Arena, k: Word)
    requires a.Inv()
    ensures k in a.live ==> a.live[k].base == k && k + a.live[k].size <= UINTPTR_MAX
  {
    if k in a.live {
      var i :| 0 <= i < |a.issued| && a.issued[i] == a.live[k];
    }
  }

  /**
   * The returned address is inside the accepted object, and checks there again, exactly when the
   * window is not empty or the runtime reports bytes of the object beyond the offset: one more
   * byte would have been accepted.
   */
  lemma ReturnedAddressInside(s: State, base: Word, offset: Word, bytes: Word, hash: Word)
    requires Reachable(s) && WindowVerdict(s, base, offset, bytes, hash) == Ok
    ensures var held := s.arena.LiveAt(base).value;
            && (held.Contains(base + offset) <==> bytes > 0 || offset < s.Remaining(base, hash).1.value)
            && (held.Contains(base + offset) <==> bytes > 0 || s.Check(base, offset + 1, hash) == Ok)
            && (held.Contains(base + offset) <==>
                  s.arena.LiveAt(base + offset) == Some(held) && s.Check(base + offset, bytes, hash) == Ok)
  {
    ReachableInv(s);
    var k :| s.arena.LiveHolds(k, base) && s.arena.live[k] == s.arena.LiveAt(base).value;
    ObjectsDoNotWrap(s.arena, k);
    if s.arena.live[k].Contains(base + offset) {
      RangeAccepted(s, k, base + offset, bytes, hash);
    }
  }

  lemma RangeAccepted(s: State, k: Word, p: nat, bytes: nat, hash: Word)
    requires s.arena.Inv() && s.arena.LiveHolds(k, p)
    requires s.arena.live[k].typeHash == hash && p + bytes <= s.arena.live[k].base + s.arena.live[k].size
    ensures s.arena.LiveAt(p) == Some(s.arena.live[k]) && s.Check(p, bytes, hash) == Ok
  {
    LiveAtIs(s.arena, k, p);
  }

  /** Two adjacent blocks of 8 bytes, of types 5 and 6. */
  const TWO_BLOCKS: seq<Op> :=
    [OpRegisterType(1, 5), OpRegisterType(2, 6), OpAllocate(8, 1), OpAllocate(8, 2)]

  /** An empty window at the end of an object is accepted and points into its neighbour. */
  lemma EmptyWindowLeavesObject()
    ensures var s := Run(Initial(1024, 64), TWO_BLOCKS);
            && WindowVerdict(s, 1024, 8, 0, 5) == Ok
            && s.arena.LiveAt(1024 + 8).Some? && s.arena.LiveAt(1024 + 8).value.typeHash == 6
  {
    TwoBlocksState();
    var s := Run(Initial(1024, 64), TWO_BLOCKS);
    InitialReachable(1024, 64);
    RunReachable(Initial(1024, 64), TWO_BLOCKS);
    ReachableInv(s);
    assert s.arena.LiveHolds(1024, 1024) && s.arena.LiveHolds(1032, 1032);
    LiveAtIs(s.arena, 1024, 1024);
    LiveAtIs(s.arena, 1032, 1032);
  }

  lemma TwoBlocksState()
    ensures var s := Run(Initial(1024, 64), TWO_BLOCKS);
            s.arena.live == map[1024 := Allocation(1024, 8, 5, 0), 1032 := Allocation(1032, 8, 6, 0)]
  {
    RunFour(Initial(1024, 64), TWO_BLOCKS[0], TWO_BLOCKS[1], TWO_BLOCKS[2], TWO_BLOCKS[3]);
    assert RoundUp(8) == 8;
  }
}
