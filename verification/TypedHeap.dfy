/**
 * The sandbox side of typed memory: linear memory with the trusted arena inside it, the host
 * callbacks of the arena, and the C shims for `strdup`, `free` and `realloc`.
 */
module TypedHeaps {
  import opened Machine
  import opened CStrings
  import opened Arena
  import opened RuntimeSpec
  import opened TrustedRuntime

  /** What a shim does with a pointer: settle it, or hand the call on to the C library. */
  datatype Handled = Typed(p: Word32) | Libc

  /** The bytes of the object at `k`. */
  ghost function ObjectBytes(s: State, mem: seq<Byte>, k: Word): seq<Byte>
    requires k in s.arena.live && k + s.arena.live[k].size <= |mem|
  {
    mem[k..k + s.arena.live[k].size]
  }

  /** All live objects lie inside memory. */
  ghost predicate ObjectsMapped(s: State, mem: seq<Byte>) {
    forall k :: k in s.arena.live ==> k + s.arena.live[k].size <= |mem|
  }

  /** From `(s, mem)` to `(t, mem')` every object outside `gone` keeps its record and its bytes. */
  ghost predicate ObjectsKept(s: State, mem: seq<Byte>, t: State, mem': seq<Byte>, gone: set<Word>)
    requires ObjectsMapped(s, mem) && |mem| <= |mem'|
  {
    forall k :: k in s.arena.live && k !in gone ==>
      && k in t.arena.live && t.arena.live[k] == s.arena.live[k]
      && mem'[k..k + s.arena.live[k].size] == ObjectBytes(s, mem, k)
  }

  /** `mem'` differs from `mem` at most inside `[lo, hi)`. */
  ghost predicate SameOutside(mem: seq<Byte>, mem': seq<Byte>, lo: nat, hi: nat) {
    |mem'| == |mem| && forall i :: 0 <= i < |mem| && !(lo <= i < hi) ==> mem'[i] == mem[i]
  }

  class TypedHeap {
    const runtime: Runtime
    const memory: array<Byte>
    /** Whether the lifetime callbacks have been installed by `interspec_popt_init_lifetime`. */
    var lifetime: bool

    /** The arena is a non-null part of the 32-bit linear memory. */
    ghost predicate Valid()
      reads this, runtime
    {
      && runtime.Valid()
      && 0 < runtime.base
      && runtime.base + runtime.capacity <= memory.Length <= 0x1_0000_0000
    }

    ghost function Bytes(): seq<Byte>
      reads this, memory
    {
      memory[..]
    }

    constructor (runtime: Runtime, memory: array<Byte>)
      requires runtime.Valid() && 0 < runtime.base
      requires runtime.base + runtime.capacity <= memory.Length <= 0x1_0000_0000
      ensures Valid() && this.runtime == runtime && this.memory == memory && !lifetime
    {
      this.runtime := runtime;
      this.memory := memory;
      this.lifetime := false;
    }

    method InitLifetime()
      requires Valid()
      modifies this
      ensures Valid() && lifetime
    {
      lifetime := true;
    }

    // ----- host callbacks: 64-bit results are cut to the 32-bit ABI

    method AllocateCallback(size: Word32, site: Word32) returns (p: Word32)
      requires Valid()
      modifies runtime
      ensures Valid()
      ensures runtime.model == old(runtime.model).AllocateFromSite(size, site).0
      ensures p == old(runtime.model).AllocateFromSite(size, site).1
    {
      BlocksFitMemory(runtime.model);
      var q := runtime.AllocateFromSite(size, site);
      p := q % 0x1_0000_0000;
    }

    method ReleaseCallback(p: Word32) returns (ok: bool)
      requires Valid()
      modifies runtime
      ensures Valid()
      ensures runtime.model == Step(old(runtime.model), OpRelease(p)).0
      ensures ok == (p in old(runtime.model).arena.live)
    {
      ok := runtime.Release(p);
    }

    /** A size of 0 means exactly that `p` is not the start of a live object. */
    method SizeCallback(p: Word32) returns (size: Word32)
      requires Valid()
      ensures size == 0 <==> p !in runtime.model.arena.live
      ensures size != 0 ==> size == runtime.model.arena.live[p].size
    {
      var found := runtime.AllocationSize(p);
      if found.None? {
        return 0;
      }
      LiveFits(runtime.model, p);
      if found.value > UINT32_MAX {
        assert false;
      }
      return found.value;
    }

    method ReallocateCallback(p: Word32, size: Word32) returns (q: Word32)
      requires Valid()
      modifies runtime
      ensures Valid()
      ensures runtime.model == old(runtime.model).WithArena(old(runtime.model).arena.Reallocate(p, size)).0
      ensures q == old(runtime.model).arena.Reallocate(p, size).1
    {
      BlocksFitMemory(runtime.model);
      var r := runtime.Reallocate(p, size);
      q := r % 0x1_0000_0000;
    }

    /** `memcpy` */
    method Copy(dst: nat, src: nat, n: nat)
      requires dst + n <= memory.Length && src + n <= memory.Length
      modifies memory
      ensures memory[dst..dst + n] == old(memory[src..src + n])
      ensures SameOutside(old(memory[..]), memory[..], dst, dst + n)
    {
      forall i | 0 <= i < n {
        memory[dst + i] := memory[src + i];
      }
    }

    // ----- the C shims

    /** `interspec_typed_strdup`, with `site` the allocation site compiled into it. */
    method Strdup(src: Word32, site: Word32) returns (dst: Word32)
      requires Valid()
      requires src != 0 ==> exists q :: src <= q < memory.Length && memory[q] == 0
      modifies runtime, memory
      ensures Valid()
      ensures src == 0 ==> dst == 0
      ensures dst == 0 ==> runtime.model == old(runtime.model) && memory[..] == old(memory[..])
      ensures dst != 0 ==> Duplicated(old(runtime.model), old(memory[..]), runtime.model, memory[..],
                                      CString(old(memory[..]), src), site, dst)
      ensures dst == 0 <==> src == 0 || !CanDuplicate(old(runtime.model), CString(old(memory[..]), src), site)
    {
      if src == 0 {
        return 0;
      }
      ghost var s, mem := runtime.model, memory[..];
      var text := CString(memory[..], src);
      var size := |text| + 1;
      if size > UINT32_MAX {
        assert false;
      }
      dst := AllocateCallback(size, site);
      if dst == 0 {
        return 0;
      }
      Copy(dst, src, size);
      StringCopied(mem, src, memory[..], dst, text);
      DuplicateIsPlaced(s, mem, runtime.model, memory[..], text, site, dst);
    }

    /** `interspec_typed_free`: a tracked pointer is released, any other goes to `free`. */
    method Free(p: Word32) returns (r: Handled)
      requires Valid()
      modifies runtime
      ensures Valid()
      ensures r == if p == 0 || (lifetime && p in old(runtime.model).arena.live) then Typed(0) else Libc
      ensures runtime.model ==
              if lifetime && p != 0 then Step(old(runtime.model), OpRelease(p)).0 else old(runtime.model)
    {
      if p == 0 {
        return Typed(0);
      }
      if lifetime {
        var released := ReleaseCallback(p);
        if released {
          return Typed(0);
        }
      }
      return Libc;
    }

    /** `interspec_typed_realloc`; `Libc` hands the same arguments on to `realloc`. */
    method Realloc(p: Word32, size: Word) returns (r: Handled)
      requires Valid()
      modifies runtime, memory
      ensures Valid()
      ensures var tracked := lifetime && p != 0 && p in old(runtime.model).arena.live;
              && (r == Libc <==> p == 0 || (size <= UINT32_MAX && !tracked))
              && (r != Typed(0) && r != Libc <==>
                    tracked && size <= UINT32_MAX && old(runtime.model).arena.Fits(size))
              && (tracked && size == 0 ==> runtime.model == Step(old(runtime.model), OpRelease(p)).0)
              && (r.Typed? && r.p == 0 && size != 0 ==> runtime.model == old(runtime.model))
              && (r == Libc ==> runtime.model == old(runtime.model))
      ensures r == Libc || r == Typed(0) ==> memory[..] == old(memory[..])
      ensures r.Typed? && r.p != 0 ==>
                Moved(old(runtime.model), old(memory[..]), runtime.model, memory[..], p, size, r.p)
    {
      if p == 0 {
        return Libc;
      }
      if size > UINT32_MAX {
        return Typed(0);
      }
      ghost var s, mem := runtime.model, memory[..];
      if lifetime {
        var oldSize := SizeCallback(p);
        if oldSize != 0 {
          if size == 0 {
            var _ := ReleaseCallback(p);
            return Typed(0);
          }
          var dst := ReallocateCallback(p, size);
          if dst == 0 {
            return Typed(0);
          }
          LiveFits(s, p);
          var n := if oldSize < size then oldSize else size;
          Copy(dst, p, n);
          MoveIsPlaced(s, mem, runtime.model, memory[..], p, size, dst);
          return Typed(dst);
        }
      }
      return Libc;
    }

    // ----- the arena inside linear memory

    lemma BlocksFitMemory(s: State)
      requires Valid() && Reachable(s) && s.arena.base == runtime.base && s.arena.capacity == runtime.capacity
      ensures s.arena.base + s.arena.used <= 0x1_0000_0000
      ensures forall size: Word :: s.arena.Fits(size) ==> s.arena.base + s.arena.used < 0x1_0000_0000
    {
      UsedWithinCapacity(s);
    }

    lemma LiveFits(s: State, k: Word)
      requires Valid() && Reachable(s) && s.arena.base == runtime.base && s.arena.capacity == runtime.capacity
      requires k in s.arena.live
      ensures 0 < s.arena.live[k].size <= UINT32_MAX
      ensures k + s.arena.live[k].size <= memory.Length
    {
      ReachableInv(s);
      LiveInArena(s, k);
    }
  }

  // ----- what the shims achieve, on states and memory contents

  lemma LiveInArena(s: State, k: Word)
    requires s.Inv() && k in s.arena.live
    ensures s.arena.live[k].size > 0
    ensures s.arena.base <= k && k + s.arena.live[k].size <= s.arena.base + s.arena.used
  {
    var i :| 0 <= i < |s.arena.issued| && s.arena.issued[i] == s.arena.live[k];
  }

  /** `strdup` succeeds exactly when its site is registered and the copy fits in the arena. */
  ghost predicate CanDuplicate(s: State, text: seq<Byte>, site: Word32) {
    |text| + 1 <= UINT32_MAX && site in s.sites.types && s.arena.Fits(|text| + 1)
  }

  /** `text` was duplicated at `dst` for `site`; every other object is as before. */
  ghost predicate Duplicated(
    s: State, mem: seq<Byte>, t: State, mem': seq<Byte>, text: seq<Byte>, site: Word32, dst: Word32)
  {
    && |mem'| == |mem|
    && CanDuplicate(s, text, site)
    && t == s.AllocateFromSite(|text| + 1, site).0
    && dst !in s.arena.live && dst in t.arena.live
    && t.arena.live[dst] == Allocation(dst, |text| + 1, s.sites.types[site], site)
    && StringAt(mem', dst, text)
    && SameOutside(mem, mem', dst, dst + |text| + 1)
    && ObjectsMapped(s, mem) && ObjectsKept(s, mem, t, mem', {})
  }

  /** The object at `p` was moved to `dst` with `size` bytes; every other object is as before. */
  ghost predicate Moved(
    s: State, mem: seq<Byte>, t: State, mem': seq<Byte>, p: Word32, size: Word, dst: Word32)
  {
    && |mem'| == |mem|
    && p in s.arena.live && dst !in s.arena.live
    && t.arena.live.Keys == s.arena.live.Keys - {p} + {dst}
    && t.arena.live[dst] == Allocation(dst, size, s.arena.live[p].typeHash, s.arena.live[p].siteId)
    && ObjectsMapped(s, mem) && ObjectsMapped(t, mem')
    && (var n := if s.arena.live[p].size < size then s.arena.live[p].size else size;
        && ObjectBytes(t, mem', dst)[..n] == ObjectBytes(s, mem, p)[..n]
        && SameOutside(mem, mem', dst, dst + n))
    && (forall k :: k in s.arena.live ==>
          k + s.arena.live[k].size <= dst || dst + size <= k)
    && ObjectsKept(s, mem, t, mem', {p})
  }

  /** Every live object ends at or below the next block. */
  lemma LiveBelowNext(s: State)
    requires Reachable(s)
    ensures forall k :: k in s.arena.live ==>
              && 0 < s.arena.live[k].size
              && k + s.arena.live[k].size <= s.arena.base + s.arena.used <= s.arena.base + s.arena.capacity
  {
    ReachableInv(s);
    forall k | k in s.arena.live
      ensures 0 < s.arena.live[k].size
      ensures k + s.arena.live[k].size <= s.arena.base + s.arena.used
    {
      LiveInArena(s, k);
    }
  }

  /** Writing above every live object changes no object. */
  lemma KeptBelow(s: State, mem: seq<Byte>, t: State, mem': seq<Byte>, lo: nat, hi: nat, gone: set<Word>)
    requires forall k :: k in s.arena.live ==> k + s.arena.live[k].size <= lo
    requires lo <= hi <= |mem| && SameOutside(mem, mem', lo, hi)
    requires forall k :: k in s.arena.live && k !in gone ==> k in t.arena.live && t.arena.live[k] == s.arena.live[k]
    ensures ObjectsMapped(s, mem) && ObjectsKept(s, mem, t, mem', gone)
  {
  }

  lemma DuplicateIsPlaced(
    s: State, mem: seq<Byte>, t: State, mem': seq<Byte>, text: seq<Byte>, site: Word32, dst: Word32)
    requires Reachable(s) && s.arena.base + s.arena.capacity <= |mem|
    requires CanDuplicate(s, text, site) && s.AllocateFromSite(|text| + 1, site) == (t, dst)
    requires SameOutside(mem, mem', dst, dst + |text| + 1) && StringAt(mem', dst, text)
    ensures Duplicated(s, mem, t, mem', text, site, dst)
  {
    LiveBelowNext(s);
    KeptBelow(s, mem, t, mem', dst, dst + |text| + 1, {});
  }

  lemma StringCopied(mem: seq<Byte>, src: nat, mem': seq<Byte>, dst: nat, text: seq<Byte>)
    requires StringAt(mem, src, text) && dst + |text| < |mem'|
    requires mem'[dst..dst + |text| + 1] == mem[src..src + |text| + 1]
    ensures StringAt(mem', dst, text)
  {
    assert mem'[dst..dst + |text|] == mem'[dst..dst + |text| + 1][..|text|];
    assert mem[src..src + |text|] == mem[src..src + |text| + 1][..|text|];
    assert mem'[dst + |text|] == mem'[dst..dst + |text| + 1][|text|];
  }

  lemma MoveIsPlaced(s: State, mem: seq<Byte>, t: State, mem': seq<Byte>, p: Word32, size: Word, dst: Word32)
    requires Reachable(s) && s.arena.base + s.arena.capacity <= |mem|
    requires p in s.arena.live && size > 0 && s.arena.Fits(size) && dst != 0
    requires s.WithArena(s.arena.Reallocate(p, size)) == (t, dst)
    requires var n := if s.arena.live[p].size < size then s.arena.live[p].size else size;
             && SameOutside(mem, mem', dst, dst + n)
             && dst + n <= |mem'| && p + n <= |mem|
             && mem'[dst..dst + n] == mem[p..p + n]
    ensures Moved(s, mem, t, mem', p, size, dst)
  {
    var n := if s.arena.live[p].size < size then s.arena.live[p].size else size;
    LiveBelowNext(s);
    ReallocatedState(s, p, size);
    ReallocatedMapped(s, mem, p, size);
    MoveKeepsOthers(s, mem, t, mem', p, size, dst, n);
    PrefixesMoved(mem, p, s.arena.live[p].size, mem', dst, size, n);
  }

  lemma MoveKeepsOthers(
    s: State, mem: seq<Byte>, t: State, mem': seq<Byte>, p: Word32, size: Word, dst: Word32, n: nat)
    requires Reachable(s) && s.arena.base + s.arena.capacity <= |mem|
    requires p in s.arena.live && size > 0 && s.arena.Fits(size) && dst != 0
    requires s.WithArena(s.arena.Reallocate(p, size)) == (t, dst)
    requires SameOutside(mem, mem', dst, dst + n) && dst + n <= |mem|
    ensures ObjectsMapped(s, mem) && ObjectsKept(s, mem, t, mem', {p})
  {
    LiveBelowNext(s);
    ReallocatedState(s, p, size);
    KeptBelow(s, mem, t, mem', dst, dst + n, {p});
  }

  lemma PrefixesMoved(mem: seq<Byte>, p: nat, m: nat, mem': seq<Byte>, dst: nat, m': nat, n: nat)
    requires n <= m && n <= m' && p + m <= |mem| && dst + m' <= |mem'|
    requires mem'[dst..dst + n] == mem[p..p + n]
    ensures mem'[dst..dst + m'][..n] == mem[p..p + m][..n]
  {
    assert mem'[dst..dst + m'][..n] == mem'[dst..dst + n];
    assert mem[p..p + m][..n] == mem[p..p + n];
  }

  /** After a reallocation that fits, every live object still lies inside memory. */
  lemma ReallocatedMapped(s: State, mem: seq<Byte>, p: Word32, size: Word)
    requires Reachable(s) && s.arena.base + s.arena.capacity <= |mem|
    requires p in s.arena.live && size > 0 && s.arena.Fits(size) && s.arena.base + s.arena.used != 0
    ensures ObjectsMapped(s.WithArena(s.arena.Reallocate(p, size)).0, mem)
  {
    LiveBelowNext(s);
    ReallocatedState(s, p, size);
  }

  /** The whole effect of a reallocation that fits on the live records. */
  lemma ReallocatedState(s: State, p: Word32, size: Word)
    requires Reachable(s) && p in s.arena.live && size > 0 && s.arena.Fits(size)
    requires s.arena.base + s.arena.used != 0
    ensures var (t, dst) := s.WithArena(s.arena.Reallocate(p, size));
            && dst == s.arena.base + s.arena.used && dst !in s.arena.live
            && t.arena.live == s.arena.live[dst := Allocation(dst, size, s.arena.live[p].typeHash, s.arena.live[p].siteId)] - {p}
            && t.arena.live.Keys == s.arena.live.Keys - {p} + {dst}
  {
    LiveBelowNext(s);
  }
}
