/** Strings crossing the sandbox boundary in the popt bridge: copied in, and copied out checked. */
module StringCrossing {
  import opened Machine
  import opened CStrings
  import opened Arena
  import opened RuntimeSpec
  import opened TrustedRuntime
  import opened TypedHeaps

  /** A C string pointer of the host: null, or the bytes before the terminator. */
  datatype HostString = Null | Text(bytes: seq<Byte>) {
    predicate NulFree() { Text? ==> 0 !in bytes }
  }

  /** The outcome of a crossing that may throw. */
  datatype Crossing<+T> = Threw | Crossed(value: T)

  /** A live object of the char type at `p` is exactly the string `text` with its terminator. */
  ghost predicate HoldsText(s: State, mem: seq<Byte>, p: Word, text: seq<Byte>, charHash: Word) {
    && p in s.arena.live
    && s.arena.live[p].typeHash == charHash && s.arena.live[p].size == |text| + 1
    && StringAt(mem, p, text)
  }

  /** A sandbox pointer that stands for a host string. */
  ghost predicate Mirrors(s: State, mem: seq<Byte>, p: Word32, value: HostString, charHash: Word) {
    match value
    case Null => p == 0
    case Text(text) => p != 0 && HoldsText(s, mem, p, text, charHash)
  }

  /** The string at `p` ends, terminator included, inside the live char object holding `p`. */
  ghost predicate ReadableText(s: State, mem: seq<Byte>, p: nat, text: seq<Byte>, charHash: Word) {
    && s.arena.LiveAt(p).Some?
    && s.arena.LiveAt(p).value.typeHash == charHash
    && StringAt(mem, p, text)
    && p + |text| + 1 <= s.arena.LiveAt(p).value.base + s.arena.LiveAt(p).value.size
  }

  /** Every object keeps its record and its bytes, and no site changes its type. */
  ghost predicate Kept(s: State, mem: seq<Byte>, t: State, mem': seq<Byte>) {
    && ObjectsMapped(s, mem) && |mem'| == |mem|
    && ObjectsKept(s, mem, t, mem', {})
    && t.sites == s.sites
  }

  /** The typed arena has no place for a copy of the string. */
  ghost predicate Unplaceable(s: State, source: HostString, site: Word32) {
    source.Text? && !CanDuplicate(s, source.bytes, site)
  }

  /** What `copy_checked` is to return: a string only if it lies in one live char object. */
  ghost function ReadChecked(s: State, mem: seq<Byte>, p: nat, charHash: Word): Crossing<HostString> {
    if p == 0 then Crossed(Null)
    else if text :| ReadableText(s, mem, p, text, charHash) then Crossed(Text(text))
    else Threw
  }

  /** `memchr(p, 0, n)`: the distance of the first NUL. */
  function FirstNul(mem: seq<Byte>, p: nat, n: nat): (r: Option<nat>)
    requires p + n <= |mem|
    ensures r.Some? ==> r.value < n && StringAt(mem, p, mem[p..p + r.value])
    ensures r.None? ==> 0 !in mem[p..p + n]
    decreases n
  {
    if n == 0 then None
    else if mem[p] == 0 then Some(0)
    else
      assert mem[p..p + n] == [mem[p]] + mem[p + 1..p + n];
      match FirstNul(mem, p + 1, n - 1)
      case None => None
      case Some(d) =>
        assert mem[p..p + (d + 1)] == [mem[p]] + mem[p + 1..p + 1 + d];
        Some(d + 1)
  }

  class Engine {
    const heap: TypedHeap
    const charHash: Word
    /** The allocation site compiled into the sandbox's string copy. */
    const copySite: Word32
    /** Host copies made so far; they live as long as the engine. */
    var trustedStrings: seq<seq<Byte>>
    /** How often the sandbox's `malloc` has answered null. */
    ghost var nullMallocs: nat

    ghost predicate Valid()
      reads this, heap, heap.runtime
    {
      && heap.Valid()
      && copySite in heap.runtime.model.sites.types
      && heap.runtime.model.sites.types[copySite] == charHash
    }

    constructor (heap: TypedHeap, charHash: Word, copySite: Word32)
      requires heap.Valid()
      requires copySite in heap.runtime.model.sites.types
      requires heap.runtime.model.sites.types[copySite] == charHash
      ensures Valid() && this.heap == heap && this.charHash == charHash && trustedStrings == []
    {
      this.heap := heap;
      this.charHash := charHash;
      this.copySite := copySite;
      this.trustedStrings := [];
      this.nullMallocs := 0;
    }

    /** The sandbox's own `malloc`: null, or some buffer outside the typed arena. */
    method MallocInSandbox(bytes: nat) returns (p: Word32)
      requires Valid()
      modifies this`nullMallocs
      ensures nullMallocs == old(nullMallocs) + if p == 0 then 1 else 0
      ensures p != 0 ==>
                && p + bytes <= heap.memory.Length
                && (p + bytes <= heap.runtime.base || heap.runtime.base + heap.runtime.capacity <= p)
    {
      p :| p == 0 || (&& p + bytes <= heap.memory.Length
                      && (p + bytes <= heap.runtime.base || heap.runtime.base + heap.runtime.capacity <= p));
      nullMallocs := nullMallocs + if p == 0 then 1 else 0;
    }

    /** It throws exactly when the sandbox's `malloc` answers null or the copy cannot be placed. */
    method CopyToU(source: HostString) returns (r: Crossing<Word32>)
      requires Valid() && source.NulFree()
      modifies this`nullMallocs, heap.runtime, heap.memory
      ensures Valid()
      ensures r.Threw? <==> nullMallocs > old(nullMallocs) || Unplaceable(old(heap.runtime.model), source, copySite)
      ensures r.Crossed? ==> nullMallocs == old(nullMallocs)
      ensures r.Crossed? ==>
                Mirrors(heap.runtime.model, heap.memory[..], r.value, source, charHash)
      ensures r == Threw ==> source.Text? && heap.runtime.model == old(heap.runtime.model)
      ensures Kept(old(heap.runtime.model), old(heap.memory[..]), heap.runtime.model, heap.memory[..])
    {
      ghost var s, mem := heap.runtime.model, heap.memory[..];
      LiveBelowNext(s);
      if source.Null? {
        return Crossed(0);
      }
      var bytes := |source.bytes| + 1;
      if bytes > UINT32_MAX {
        return Threw;
      }
      var temporary := MallocInSandbox(bytes);
      if temporary == 0 {
        return Threw;
      }
      Stage(temporary, source.bytes);
      ghost var staged := heap.memory[..];
      var typed := heap.Strdup(temporary, copySite);
      KeptTwice(s, mem, s, staged, heap.runtime.model, heap.memory[..]);
      return if typed == 0 then Threw else Crossed(typed);
    }

    /** `memcpy` of a host string, terminator included, to a buffer outside the arena. */
    method Stage(p: Word32, text: seq<Byte>)
      requires Valid() && 0 !in text && p + |text| + 1 <= heap.memory.Length
      requires p + |text| + 1 <= heap.runtime.base || heap.runtime.base + heap.runtime.capacity <= p
      modifies heap.memory
      ensures Kept(heap.runtime.model, old(heap.memory[..]), heap.runtime.model, heap.memory[..])
      ensures exists q :: p <= q < heap.memory.Length && heap.memory[q] == 0
      ensures CString(heap.memory[..], p) == text
    {
      ghost var s, mem := heap.runtime.model, heap.memory[..];
      var bytes := text + [0];
      forall i | 0 <= i < |bytes| {
        heap.memory[p + i] := bytes[i];
      }
      assert heap.memory[..][p..p + |bytes|] == bytes;
      StagedString(mem, heap.memory[..], p, text);
      StagingKeepsObjects(s, mem, heap.memory[..], p, p + |bytes|);
      assert heap.memory[p + |text|] == heap.memory[..][p..p + |bytes|][|text|];
    }

    method CopyChecked(source: Word32) returns (r: Crossing<HostString>)
      requires Valid()
      modifies this`trustedStrings
      ensures Valid()
      ensures r == ReadChecked(heap.runtime.model, heap.memory[..], source, charHash)
      ensures trustedStrings ==
              if r.Crossed? && r.value.Text? then old(trustedStrings) + [r.value.bytes] else old(trustedStrings)
    {
      if source == 0 {
        return Crossed(Null);
      }
      ghost var s, mem := heap.runtime.model, heap.memory[..];
      var result, remaining := heap.runtime.RemainingBytes(source, charHash);
      if result != Ok || remaining.value == 0 {
        NothingReadable(s, mem, source, charHash);
        return Threw;
      }
      RemainingIsMapped(s, mem, source, charHash);
      var end := FirstNul(heap.memory[..], source, remaining.value);
      if end.None? {
        UnterminatedRejected(s, mem, source, charHash, remaining.value);
        return Threw;
      }
      var copy := heap.memory[source..source + end.value];
      ReadIsUnique(s, mem, source, charHash, copy);
      trustedStrings := trustedStrings + [copy];
      return Crossed(Text(copy));
    }
  }

  lemma StagedString(mem: seq<Byte>, staged: seq<Byte>, p: nat, text: seq<Byte>)
    requires p + |text| < |staged| && 0 !in text
    requires staged[p..p + |text| + 1] == text + [0]
    ensures StringAt(staged, p, text)
    ensures exists q :: p <= q < |staged| && staged[q] == 0
    ensures CString(staged, p) == text
  {
    assert staged[p..p + |text|] == staged[p..p + |text| + 1][..|text|] == text;
    assert staged[p + |text|] == staged[p..p + |text| + 1][|text|] == 0;
    StringIsUnique(staged, p, text, CString(staged, p));
  }

  /** Staging outside the arena changes no object. */
  lemma StagingKeepsObjects(s: State, mem: seq<Byte>, mem': seq<Byte>, lo: nat, hi: nat)
    requires Reachable(s) && s.arena.base + s.arena.capacity <= |mem|
    requires SameOutside(mem, mem', lo, hi)
    requires hi <= s.arena.base || s.arena.base + s.arena.capacity <= lo
    ensures Kept(s, mem, s, mem')
  {
    LiveBelowNext(s);
    LiveAboveBase(s);
  }

  lemma LiveAboveBase(s: State)
    requires Reachable(s)
    ensures forall k :: k in s.arena.live ==> s.arena.base <= k
  {
    ReachableInv(s);
    forall k | k in s.arena.live
      ensures s.arena.base <= k
    {
      LiveInArena(s, k);
    }
  }

  lemma KeptTwice(s: State, mem: seq<Byte>, t: State, mem': seq<Byte>, u: State, mem'': seq<Byte>)
    requires Kept(s, mem, t, mem') && Kept(t, mem', u, mem'')
    ensures Kept(s, mem, u, mem'')
  {
  }

  lemma RemainingIsMapped(s: State, mem: seq<Byte>, p: nat, charHash: Word)
    requires Reachable(s) && s.arena.base + s.arena.capacity <= |mem|
    requires s.Remaining(p, charHash).0 == Ok
    ensures p + s.Remaining(p, charHash).1.value <= |mem|
    ensures s.Remaining(p, charHash).1.value > 0
  {
    var k :| s.arena.LiveHolds(k, p) && s.arena.live[k] == s.arena.LiveAt(p).value;
    LiveBelowNext(s);
    ReachableInv(s);
  }

  lemma NothingReadable(s: State, mem: seq<Byte>, p: nat, charHash: Word)
    requires Reachable(s) && s.arena.base + s.arena.capacity <= |mem|
    requires s.Remaining(p, charHash).0 != Ok || s.Remaining(p, charHash).1.value == 0
    ensures forall text :: !ReadableText(s, mem, p, text, charHash)
  {
    if s.Remaining(p, charHash).0 == Ok {
      RemainingIsMapped(s, mem, p, charHash);
      assert false;
    }
  }

  lemma UnterminatedRejected(s: State, mem: seq<Byte>, p: nat, charHash: Word, n: nat)
    requires s.Remaining(p, charHash) == (Ok, Some(n))
    requires p + n <= |mem| && 0 !in mem[p..p + n]
    ensures forall text :: !ReadableText(s, mem, p, text, charHash)
  {
    var window := mem[p..p + n];
    forall j | p <= j < p + n
      ensures mem[j] != 0
    {
      assert window[j - p] == mem[j];
    }
  }

  lemma ReadIsUnique(s: State, mem: seq<Byte>, p: nat, charHash: Word, text: seq<Byte>)
    requires p != 0 && ReadableText(s, mem, p, text, charHash)
    ensures ReadChecked(s, mem, p, charHash) == Crossed(Text(text))
  {
    var found := ReadChecked(s, mem, p, charHash).value.bytes;
    StringIsUnique(mem, p, found, text);
  }

  /** Copying a host string in and checking it out again is the identity, null included. */
  lemma CrossingIsIdentity(s: State, mem: seq<Byte>, p: Word32, value: HostString, charHash: Word)
    requires Reachable(s) && Mirrors(s, mem, p, value, charHash)
    ensures ReadChecked(s, mem, p, charHash) == Crossed(value)
  {
    if value.Text? {
      ReachableInv(s);
      LiveInArena(s, p);
      LiveAtIs(s.arena, p, p);
      ReadIsUnique(s, mem, p, charHash, value.bytes);
    }
  }

  /** A mirrored string survives every change that keeps all objects. */
  lemma MirrorSurvives(
    s: State, mem: seq<Byte>, t: State, mem': seq<Byte>, p: Word32, value: HostString, charHash: Word)
    requires Kept(s, mem, t, mem') && Mirrors(s, mem, p, value, charHash)
    ensures Mirrors(t, mem', p, value, charHash)
  {
    if value.Text? {
      var n := |value.bytes|;
      assert mem'[p..p + n + 1] == mem[p..p + n + 1];
      StringCopied(mem, p, mem', p, value.bytes);
    }
  }

  /**
   * Exactly when a string is accepted: it is NUL-free and terminated in memory, and a check for
   * the char type accepts it, terminator included.  Null is accepted as null, and nothing else is.
   */
  lemma AcceptedTextIsChecked(s: State, mem: seq<Byte>, p: nat, charHash: Word)
    requires Reachable(s)
    ensures ReadChecked(s, mem, p, charHash) == Crossed(Null) <==> p == 0
    ensures forall text :: ReadChecked(s, mem, p, charHash) == Crossed(Text(text)) <==>
                           p != 0 && CheckedText(s, mem, p, charHash, text)
    ensures ReadChecked(s, mem, p, charHash) == Threw <==>
            p != 0 && forall text :: !CheckedText(s, mem, p, charHash, text)
  {
    forall text
      ensures CheckedText(s, mem, p, charHash, text) <==> ReadableText(s, mem, p, text, charHash)
      ensures p != 0 && CheckedText(s, mem, p, charHash, text) ==>
                ReadChecked(s, mem, p, charHash) == Crossed(Text(text))
    {
      CheckedIsReadable(s, mem, p, charHash, text);
      if p != 0 && CheckedText(s, mem, p, charHash, text) {
        ReadIsUnique(s, mem, p, charHash, text);
      }
    }
  }

  /** `text` stands at `p`, and `check` accepts it with its terminator as an object of the char type. */
  ghost predicate CheckedText(s: State, mem: seq<Byte>, p: nat, charHash: Word, text: seq<Byte>) {
    && 0 !in text && p + |text| < |mem|
    && mem[p..p + |text| + 1] == text + [0]
    && s.Check(p, |text| + 1, charHash) == Ok
  }

  lemma CheckedIsReadable(s: State, mem: seq<Byte>, p: nat, charHash: Word, text: seq<Byte>)
    ensures CheckedText(s, mem, p, charHash, text) <==> ReadableText(s, mem, p, text, charHash)
  {
    if p + |text| < |mem| {
      var window := mem[p..p + |text| + 1];
      assert window == mem[p..p + |text|] + [mem[p + |text|]];
      assert window[..|text|] == mem[p..p + |text|] && window[|text|] == mem[p + |text|];
    }
  }
}
