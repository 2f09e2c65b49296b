/** The trusted half of the popt bridge: context creation, slot synchronisation, argument lists. */
module PoptBridge {
  import opened Machine
  import opened RuntimeSpec
  import opened TypedHeaps
  import opened StringCrossing
  import opened Marshalling

  /** What the bridge keeps for an open parser context. */
  datatype Context = Context(table: Table, slots: seq<SlotBinding>, argv: seq<Word32>, name: Word32)

  /** A slot that stands for the current value of a destination. */
  ghost predicate SlotMirrors(s: State, mem: seq<Byte>, slot: Slot, cell: Cell, charHash: Word) {
    match cell
    case IntCell(i) => slot == IntSlot(i)
    case StringCell(v) => slot.StringSlot? && Mirrors(s, mem, slot.p, v, charHash)
  }

  /** A copied option that stands for a host option. */
  ghost predicate OptionMirrors(
    s: State, mem: seq<Byte>, u: UOption, o: PoptOption, slotOf: map<nat, nat>, charHash: Word)
  {
    && u.shortName == o.shortName && u.argInfo == o.argInfo && u.val == o.val
    && u.arg == (if o.arg in slotOf then Some(slotOf[o.arg]) else None)
    && Mirrors(s, mem, u.longName, o.longName, charHash)
    && Mirrors(s, mem, u.descrip, o.descrip, charHash)
    && Mirrors(s, mem, u.argDescrip, o.argDescrip, charHash)
  }

  /** Each destination has one binding, to its slot, and each binding a destination. */
  ghost predicate Bound(slots: seq<SlotBinding>, slotOf: map<nat, nat>, kinds: seq<SlotKind>) {
    && DistinctAddresses(slots)
    && (forall a :: a in slotOf ==> exists i :: 0 <= i < |slots| && slots[i].address == a)
    && (forall i :: 0 <= i < |slots| ==>
          && slots[i].address in slotOf && slots[i].index == slotOf[slots[i].address] < |kinds|
          && slots[i].kind == kinds[slots[i].index])
  }

  /** The value that synchronising one binding stores in its destination. */
  ghost function SyncedCell(
    s: State, mem: seq<Byte>, slots: seq<Slot>, b: SlotBinding, charHash: Word): Crossing<Cell>
  {
    if b.kind == Integer then Crossed(IntCell(GetInt(slots, b.index)))
    else
      match ReadChecked(s, mem, GetString(slots, b.index), charHash)
      case Crossed(v) => Crossed(StringCell(v))
      case Threw => Threw
  }

  /**
   * What a binding synchronises to: the integer in its slot, or 0 if none was stored; the string
   * that its slot points to, if a check accepts it, and null for a null slot or none.
   */
  lemma SyncedCellMeans(s: State, mem: seq<Byte>, slots: seq<Slot>, b: SlotBinding, charHash: Word)
    requires Reachable(s) && b.index < |slots|
    ensures b.kind == Integer && slots[b.index].IntSlot? ==>
              SyncedCell(s, mem, slots, b, charHash) == Crossed(IntCell(slots[b.index].i))
    ensures b.kind == Integer && !slots[b.index].IntSlot? ==> SyncedCell(s, mem, slots, b, charHash) == Crossed(IntCell(0))
    ensures b.kind == Str && (!slots[b.index].StringSlot? || slots[b.index].p == 0) ==>
              SyncedCell(s, mem, slots, b, charHash) == Crossed(StringCell(Null))
    ensures b.kind == Str && slots[b.index].StringSlot? && slots[b.index].p != 0 ==>
              && (forall text :: SyncedCell(s, mem, slots, b, charHash) == Crossed(StringCell(Text(text))) <==>
                                 CheckedText(s, mem, slots[b.index].p, charHash, text))
              && (SyncedCell(s, mem, slots, b, charHash) == Threw <==>
                  forall text :: !CheckedText(s, mem, slots[b.index].p, charHash, text))
  {
    AcceptedTextIsChecked(s, mem, GetString(slots, b.index), charHash);
  }

  ghost predicate DistinctAddresses(bindings: seq<SlotBinding>) {
    forall i, j :: 0 <= i < j < |bindings| ==> bindings[i].address != bindings[j].address
  }

  ghost function Addresses(bindings: seq<SlotBinding>): set<nat> {
    set b | b in bindings :: b.address
  }

  /** `after` is `before` with every bound destination set from its slot, and nothing else changed. */
  ghost predicate Synced(
    before: map<nat, Cell>, after: map<nat, Cell>, s: State, mem: seq<Byte>, slots: seq<Slot>,
    bindings: seq<SlotBinding>, charHash: Word)
  {
    && after.Keys == before.Keys + Addresses(bindings)
    && (forall i :: 0 <= i < |bindings| ==>
          && bindings[i].address in after
          && Crossed(after[bindings[i].address]) == SyncedCell(s, mem, slots, bindings[i], charHash))
    && (forall a :: a in before && a !in Addresses(bindings) ==> after[a] == before[a])
  }

  /** The destinations before binding `k` were set, and its own slot is rejected. */
  ghost predicate SyncedUpTo(
    before: map<nat, Cell>, after: map<nat, Cell>, s: State, mem: seq<Byte>, slots: seq<Slot>,
    bindings: seq<SlotBinding>, k: nat, charHash: Word)
  {
    && k < |bindings| && SyncedCell(s, mem, slots, bindings[k], charHash).Threw?
    && Synced(before, after, s, mem, slots, bindings[..k], charHash)
  }

  lemma SyncOneMore(
    start: map<nat, Cell>, before: map<nat, Cell>, after: map<nat, Cell>, s: State, mem: seq<Byte>,
    slots: seq<Slot>, bindings: seq<SlotBinding>, i: nat, charHash: Word)
    requires i < |bindings| && DistinctAddresses(bindings)
    requires Synced(start, before, s, mem, slots, bindings[..i], charHash)
    requires bindings[i].address in after
    requires after == before[bindings[i].address := after[bindings[i].address]]
    requires Crossed(after[bindings[i].address]) == SyncedCell(s, mem, slots, bindings[i], charHash)
    ensures Synced(start, after, s, mem, slots, bindings[..i + 1], charHash)
  {
    var done, b := bindings[..i], bindings[i];
    assert bindings[..i + 1] == done + [b];
    assert Addresses(done + [b]) == Addresses(done) + {b.address} by {
      assert b in done + [b];
      assert forall x :: x in done ==> x in done + [b];
    }
  }

  /** Host values that may be marshalled: typed as their options say, with C strings inside. */
  ghost predicate Marshallable(cells: map<nat, Cell>, slotOf: map<nat, nat>, kinds: seq<SlotKind>) {
    forall a :: a in slotOf ==>
      && slotOf[a] < |kinds| && a in cells && cells[a].HasKind(kinds[slotOf[a]])
      && (cells[a].StringCell? ==> cells[a].s.NulFree())
  }

  /** Some order in which a hash map yields its keys. */
  method HashOrder(keys: set<nat>) returns (order: seq<nat>)
    ensures forall a :: a in order <==> a in keys
    ensures forall i, j :: 0 <= i < j < |order| ==> order[i] != order[j]
  {
    var rest := keys;
    order := [];
    while rest != {}
      invariant rest <= keys
      invariant forall a :: a in order <==> a in keys - rest
      invariant forall i, j :: 0 <= i < j < |order| ==> order[i] != order[j]
      decreases rest
    {
      var a :| a in rest;
      assert a !in order;
      assert forall i :: 0 <= i < |order| ==> order[i] in order;
      rest := rest - {a};
      order := order + [a];
    }
  }

  class Bridge {
    const engine: Engine
    /** The destination variables of the host program, by address. */
    var cells: map<nat, Cell>

    constructor (engine: Engine, cells: map<nat, Cell>)
      requires engine.Valid()
      ensures this.engine == engine && this.cells == cells
    {
      this.engine := engine;
      this.cells := cells;
    }

    ghost function Model(): State
      reads engine.heap.runtime
    {
      engine.heap.runtime.model
    }

    ghost function Bytes(): seq<Byte>
      reads engine.heap.memory
    {
      engine.heap.memory[..]
    }

    /** Store the current value of one destination in its slot. */
    method FillSlot(table: Table, cell: Cell, index: Word32) returns (r: Crossing<()>)
      requires engine.Valid() && index < table.slots.Length
      requires cell.StringCell? ==> cell.s.NulFree()
      modifies engine`nullMallocs, engine.heap.runtime, engine.heap.memory, table.slots
      ensures engine.Valid()
      ensures Kept(old(Model()), old(Bytes()), Model(), Bytes())
      ensures r.Threw? ==> engine.nullMallocs > old(engine.nullMallocs)
                           || (cell.StringCell? && Unplaceable(Model(), cell.s, engine.copySite))
      ensures r.Crossed? ==> engine.nullMallocs == old(engine.nullMallocs)
      ensures r.Crossed? ==> SlotMirrors(Model(), Bytes(), table.slots[index], cell, engine.charHash)
      ensures forall i :: 0 <= i < table.slots.Length && i != index ==> table.slots[i] == old(table.slots[i])
    {
      if cell.IntCell? {
        ValidIsKept(engine);
        var ok := table.SlotSetInt(index, cell.i);
        return if ok then Crossed(()) else Threw;
      }
      var copied := engine.CopyToU(cell.s);
      if copied.Threw? {
        return Threw;
      }
      var ok := table.SlotSetString(index, copied.value);
      return if ok then Crossed(()) else Threw;
    }

    /** Fill the slot of destination `a`, when those of `done` are filled. */
    method FillNext(table: Table, slotOf: map<nat, nat>, a: nat, ghost done: set<nat>) returns (r: Crossing<()>)
      requires engine.Valid() && Injective(slotOf)
      requires a in slotOf && a in cells && slotOf[a] < table.slots.Length <= UINT32_MAX
      requires cells[a].StringCell? ==> cells[a].s.NulFree()
      requires SlotsMirror(Model(), Bytes(), table.slots[..], slotOf, cells, done, engine.charHash)
      modifies engine`nullMallocs, engine.heap.runtime, engine.heap.memory, table.slots
      ensures engine.Valid()
      ensures Kept(old(Model()), old(Bytes()), Model(), Bytes())
      ensures r.Threw? ==> engine.nullMallocs > old(engine.nullMallocs)
                           || (cells[a].StringCell? && Unplaceable(Model(), cells[a].s, engine.copySite))
      ensures r.Crossed? ==> engine.nullMallocs == old(engine.nullMallocs)
      ensures r.Crossed? ==> SlotsMirror(Model(), Bytes(), table.slots[..], slotOf, cells, done + {a}, engine.charHash)
    {
      ghost var s, mem, before := Model(), Bytes(), table.slots[..];
      r := FillSlot(table, cells[a], slotOf[a]);
      if r.Crossed? {
        OneMoreMirror(s, mem, before, Model(), Bytes(), table.slots[..], slotOf, cells, done, a, engine.charHash);
      }
    }

    /** Give every slot the value of its destination, in the order the hash map yields them. */
    method FillSlots(table: Table, slotOf: map<nat, nat>, kinds: seq<SlotKind>) returns (r: Crossing<seq<SlotBinding>>)
      requires engine.Valid() && Marshallable(cells, slotOf, kinds)
      requires Injective(slotOf)
      requires table.slots.Length == |kinds| <= UINT32_MAX
      modifies engine`nullMallocs, engine.heap.runtime, engine.heap.memory, table.slots
      ensures engine.Valid()
      ensures Kept(old(Model()), old(Bytes()), Model(), Bytes())
      ensures r.Threw? ==> engine.nullMallocs > old(engine.nullMallocs)
                           || NoRoomForCell(Model(), cells, slotOf, engine.copySite)
      ensures r.Crossed? ==> engine.nullMallocs == old(engine.nullMallocs)
      ensures r.Crossed? ==> Bound(r.value, slotOf, kinds)
      ensures r.Crossed? ==> SlotsMirror(Model(), Bytes(), table.slots[..], slotOf, cells, slotOf.Keys, engine.charHash)
    {
      ghost var s0, mem0 := Model(), Bytes();
      ValidIsKept(engine);
      var order := HashOrder(slotOf.Keys);
      var slots: seq<SlotBinding> := [];
      var i := 0;
      while i < |order|
        invariant i <= |order|
        invariant engine.Valid() && Kept(s0, mem0, Model(), Bytes())
        invariant engine.nullMallocs == old(engine.nullMallocs)
        invariant BindingsOf(slots, order[..i], slotOf, kinds)
        invariant SlotsMirror(Model(), Bytes(), table.slots[..], slotOf, cells, Elements(order[..i]), engine.charHash)
      {
        var a := order[i];
        ghost var s, mem := Model(), Bytes();
        var filled := FillNext(table, slotOf, a, Elements(order[..i]));
        KeptTwice(s0, mem0, s, mem, Model(), Bytes());
        if filled.Threw? {
          return Threw;
        }
        BindingsStep(slots, order, slotOf, kinds, i);
        slots := slots + [SlotBinding(a, kinds[slotOf[a]], slotOf[a])];
        i := i + 1;
      }
      assert order[..i] == order;
      assert Elements(order) == slotOf.Keys;
      BindingsAreBound(slots, order, slotOf, kinds);
      return Crossed(slots);
    }

    /** Copy one option across: its scalars, the slot of its destination, and its strings. */
    method FillOption(table: Table, index: Word32, o: PoptOption, slotOf: map<nat, nat>) returns (r: Crossing<()>)
      requires engine.Valid() && index < table.options.Length && o.NulFree()
      requires o.arg != 0 <==> o.arg in slotOf
      requires o.arg in slotOf ==> slotOf[o.arg] < UINT32_MAX
      requires o.arg in slotOf ==> slotOf[o.arg] < table.slots.Length && table.slots[slotOf[o.arg]] != Unset
      modifies engine`nullMallocs, engine.heap.runtime, engine.heap.memory, table.options
      ensures engine.Valid()
      ensures Kept(old(Model()), old(Bytes()), Model(), Bytes())
      ensures r.Threw? ==> engine.nullMallocs > old(engine.nullMallocs) || NoRoomForOption(Model(), o, engine.copySite)
      ensures r.Crossed? ==> engine.nullMallocs == old(engine.nullMallocs)
      ensures r.Crossed? ==> OptionMirrors(Model(), Bytes(), table.options[index], o, slotOf, engine.charHash)
      ensures forall i :: 0 <= i < table.options.Length && i != index ==> table.options[i] == old(table.options[i])
    {
      ValidIsKept(engine);
      var slot := if o.arg != 0 then slotOf[o.arg] else UINT32_MAX;
      var ok := table.OptionSet(index, o.shortName, o.argInfo, slot, o.val);
      if !ok {
        return Threw;
      }
      var copied := CopyStrings(o);
      if copied.Threw? {
        return Threw;
      }
      ok := table.OptionSetStrings(index, copied.value.0, copied.value.1, copied.value.2);
      return if ok then Crossed(()) else Threw;
    }

    method CopyStrings(o: PoptOption) returns (r: Crossing<(Word32, Word32, Word32)>)
      requires engine.Valid() && o.NulFree()
      modifies engine`nullMallocs, engine.heap.runtime, engine.heap.memory
      ensures engine.Valid()
      ensures Kept(old(Model()), old(Bytes()), Model(), Bytes())
      ensures r.Threw? ==> engine.nullMallocs > old(engine.nullMallocs) || NoRoomForOption(Model(), o, engine.copySite)
      ensures r.Crossed? ==> engine.nullMallocs == old(engine.nullMallocs)
      ensures r.Crossed? ==>
                && Mirrors(Model(), Bytes(), r.value.0, o.longName, engine.charHash)
                && Mirrors(Model(), Bytes(), r.value.1, o.descrip, engine.charHash)
                && Mirrors(Model(), Bytes(), r.value.2, o.argDescrip, engine.charHash)
    {
      ghost var s0, mem0 := Model(), Bytes();
      var longName := engine.CopyToU(o.longName);
      if longName.Threw? {
        return Threw;
      }
      ghost var s1, mem1 := Model(), Bytes();
      var descrip := engine.CopyToU(o.descrip);
      ghost var s2, mem2 := Model(), Bytes();
      KeptTwice(s0, mem0, s1, mem1, s2, mem2);
      if descrip.Threw? {
        return Threw;
      }
      var argDescrip := engine.CopyToU(o.argDescrip);
      KeptTwice(s1, mem1, s2, mem2, Model(), Bytes());
      KeptTwice(s0, mem0, s1, mem1, Model(), Bytes());
      if argDescrip.Threw? {
        return Threw;
      }
      MirrorSurvives(s1, mem1, Model(), Bytes(), longName.value, o.longName, engine.charHash);
      MirrorSurvives(s2, mem2, Model(), Bytes(), descrip.value, o.descrip, engine.charHash);
      return Crossed((longName.value, descrip.value, argDescrip.value));
    }

    method FillOptions(table: Table, options: seq<PoptOption>, slotOf: map<nat, nat>) returns (r: Crossing<()>)
      requires engine.Valid() && table.options.Length == |options| <= UINT32_MAX
      requires forall i :: 0 <= i < |options| ==> options[i].NulFree()
      requires forall i :: 0 <= i < |options| ==> (options[i].arg != 0 <==> options[i].arg in slotOf)
      requires forall a :: a in slotOf ==> slotOf[a] < UINT32_MAX
      requires forall a :: a in slotOf ==> slotOf[a] < table.slots.Length && table.slots[slotOf[a]] != Unset
      modifies engine`nullMallocs, engine.heap.runtime, engine.heap.memory, table.options
      ensures engine.Valid()
      ensures Kept(old(Model()), old(Bytes()), Model(), Bytes())
      ensures r.Threw? ==> engine.nullMallocs > old(engine.nullMallocs)
                           || exists i :: 0 <= i < |options| && NoRoomForOption(Model(), options[i], engine.copySite)
      ensures r.Crossed? ==> engine.nullMallocs == old(engine.nullMallocs)
      ensures r.Crossed? ==>
                OptionsMirror(Model(), Bytes(), table.options[..], options, slotOf, |options|, engine.charHash)
    {
      ghost var s0, mem0 := Model(), Bytes();
      ValidIsKept(engine);
      var i := 0;
      while i < |options|
        invariant i <= |options|
        invariant engine.Valid() && Kept(s0, mem0, Model(), Bytes())
        invariant engine.nullMallocs == old(engine.nullMallocs)
        invariant OptionsMirror(Model(), Bytes(), table.options[..], options, slotOf, i, engine.charHash)
      {
        ghost var s, mem, before := Model(), Bytes(), table.options[..];
        var filled := FillOption(table, i, options[i], slotOf);
        KeptTwice(s0, mem0, s, mem, Model(), Bytes());
        if filled.Threw? {
          return Threw;
        }
        OneMoreOption(s, mem, before, Model(), Bytes(), table.options[..], options, slotOf, i, engine.charHash);
        i := i + 1;
      }
      return Crossed(());
    }

    method CopyArgv(argv: seq<HostString>) returns (r: Crossing<seq<Word32>>)
      requires engine.Valid() && forall i :: 0 <= i < |argv| ==> argv[i].NulFree()
      modifies engine`nullMallocs, engine.heap.runtime, engine.heap.memory
      ensures engine.Valid()
      ensures Kept(old(Model()), old(Bytes()), Model(), Bytes())
      ensures r.Threw? ==> engine.nullMallocs > old(engine.nullMallocs)
                           || exists i :: 0 <= i < |argv| && Unplaceable(Model(), argv[i], engine.copySite)
      ensures r.Crossed? ==> engine.nullMallocs == old(engine.nullMallocs)
      ensures r.Crossed? ==> AllMirror(Model(), Bytes(), r.value, argv, engine.charHash)
    {
      ghost var s0, mem0 := Model(), Bytes();
      ValidIsKept(engine);
      var copied: seq<Word32> := [];
      var i := 0;
      while i < |argv|
        invariant i <= |argv|
        invariant engine.Valid() && Kept(s0, mem0, Model(), Bytes())
        invariant engine.nullMallocs == old(engine.nullMallocs)
        invariant AllMirror(Model(), Bytes(), copied, argv[..i], engine.charHash)
      {
        ghost var s, mem := Model(), Bytes();
        var p := engine.CopyToU(argv[i]);
        KeptTwice(s0, mem0, s, mem, Model(), Bytes());
        if p.Threw? {
          return Threw;
        }
        AllMirrorSurvive(s, mem, Model(), Bytes(), copied, argv[..i], engine.charHash);
        copied := copied + [p.value];
        assert argv[..i + 1] == argv[..i] + [argv[i]];
        i := i + 1;
      }
      assert argv[..i] == argv;
      return Crossed(copied);
    }

    /** The slots first, then the options that refer to them. */
    method FillTable(table: Table, options: seq<PoptOption>, slotOf: map<nat, nat>, kinds: seq<SlotKind>)
      returns (r: Crossing<seq<SlotBinding>>)
      requires engine.Valid() && Marshallable(cells, slotOf, kinds) && Injective(slotOf)
      requires table.slots.Length == |kinds| <= UINT32_MAX
      requires table.options.Length == |options| <= UINT32_MAX
      requires forall i :: 0 <= i < |options| ==> options[i].NulFree()
      requires forall i :: 0 <= i < |options| ==> (options[i].arg != 0 <==> options[i].arg in slotOf)
      modifies engine`nullMallocs, engine.heap.runtime, engine.heap.memory, table.options, table.slots
      ensures engine.Valid()
      ensures Kept(old(Model()), old(Bytes()), Model(), Bytes())
      ensures r.Threw? ==> engine.nullMallocs > old(engine.nullMallocs)
                           || NoRoomForCell(Model(), cells, slotOf, engine.copySite)
                           || exists i :: 0 <= i < |options| && NoRoomForOption(Model(), options[i], engine.copySite)
      ensures r.Crossed? ==> engine.nullMallocs == old(engine.nullMallocs)
      ensures r.Crossed? ==> Bound(r.value, slotOf, kinds)
      ensures r.Crossed? ==> SlotsMirror(Model(), Bytes(), table.slots[..], slotOf, cells, slotOf.Keys, engine.charHash)
      ensures r.Crossed? ==>
                OptionsMirror(Model(), Bytes(), table.options[..], options, slotOf, |options|, engine.charHash)
    {
      ghost var s0, mem0 := Model(), Bytes();
      r := FillSlots(table, slotOf, kinds);
      if r.Threw? {
        return;
      }
      ghost var s1, mem1 := Model(), Bytes();
      MirroredSlotsAreSet(s1, mem1, table.slots[..], slotOf, cells, engine.charHash);
      var copied := FillOptions(table, options, slotOf);
      KeptTwice(s0, mem0, s1, mem1, Model(), Bytes());
      if copied.Threw? {
        return Threw;
      }
      SlotsMirrorSurvive(s1, mem1, Model(), Bytes(), table.slots[..], slotOf, cells, engine.charHash);
    }

    method CopyArguments(name: HostString, argv: seq<HostString>) returns (r: Crossing<(seq<Word32>, Word32)>)
      requires engine.Valid() && name.NulFree() && forall i :: 0 <= i < |argv| ==> argv[i].NulFree()
      modifies engine`nullMallocs, engine.heap.runtime, engine.heap.memory
      ensures engine.Valid()
      ensures Kept(old(Model()), old(Bytes()), Model(), Bytes())
      ensures r.Threw? ==> engine.nullMallocs > old(engine.nullMallocs)
                           || Unplaceable(Model(), name, engine.copySite)
                           || exists i :: 0 <= i < |argv| && Unplaceable(Model(), argv[i], engine.copySite)
      ensures r.Crossed? ==> engine.nullMallocs == old(engine.nullMallocs)
      ensures r.Crossed? ==>
                && AllMirror(Model(), Bytes(), r.value.0, argv, engine.charHash)
                && Mirrors(Model(), Bytes(), r.value.1, name, engine.charHash)
    {
      ghost var s0, mem0 := Model(), Bytes();
      var args := CopyArgv(argv);
      if args.Threw? {
        return Threw;
      }
      ghost var s, mem := Model(), Bytes();
      var title := engine.CopyToU(name);
      KeptTwice(s0, mem0, s, mem, Model(), Bytes());
      if title.Threw? {
        return Threw;
      }
      AllMirrorSurvive(s, mem, Model(), Bytes(), args.value, argv, engine.charHash);
      return Crossed((args.value, title.value));
    }

    /** Copy everything a new context needs: the table, the argument strings and the name. */
    method FillContext(
        table: Table, name: HostString, argv: seq<HostString>, options: seq<PoptOption>,
        slotOf: map<nat, nat>, kinds: seq<SlotKind>) returns (r: Crossing<Context>)
      requires engine.Valid() && Marshallable(cells, slotOf, kinds) && Injective(slotOf)
      requires table.slots.Length == |kinds| <= UINT32_MAX
      requires table.options.Length == |options| <= UINT32_MAX
      requires name.NulFree() && forall i :: 0 <= i < |argv| ==> argv[i].NulFree()
      requires forall i :: 0 <= i < |options| ==> options[i].NulFree()
      requires forall i :: 0 <= i < |options| ==> (options[i].arg != 0 <==> options[i].arg in slotOf)
      modifies engine`nullMallocs, engine.heap.runtime, engine.heap.memory, table.options, table.slots
      ensures engine.Valid()
      ensures Kept(old(Model()), old(Bytes()), Model(), Bytes())
      ensures r.Threw? ==> engine.nullMallocs > old(engine.nullMallocs)
                           || NoRoomForCell(Model(), cells, slotOf, engine.copySite)
                           || OutOfRoom(Model(), name, argv, options, cells, engine.copySite)
      ensures r.Crossed? ==> engine.nullMallocs == old(engine.nullMallocs)
      ensures r.Crossed? ==> r.value.table == table && Bound(r.value.slots, slotOf, kinds)
      ensures r.Crossed? ==>
                Marshalled(Model(), Bytes(), table.options[..], table.slots[..], r.value.argv, r.value.name,
                           name, argv, options, slotOf, cells, engine.charHash)
    {
      ghost var s0, mem0 := Model(), Bytes();
      var filled := FillTable(table, options, slotOf, kinds);
      if filled.Threw? {
        return Threw;
      }
      ghost var s1, mem1 := Model(), Bytes();
      var strings := CopyArguments(name, argv);
      KeptTwice(s0, mem0, s1, mem1, Model(), Bytes());
      if strings.Threw? {
        return Threw;
      }
      SlotsMirrorSurvive(s1, mem1, Model(), Bytes(), table.slots[..], slotOf, cells, engine.charHash);
      OptionsMirrorSurvive(s1, mem1, Model(), Bytes(), table.options[..], options, slotOf, |options|, engine.charHash);
      return Crossed(Context(table, filled.value, strings.value.0, strings.value.1));
    }

    /**
     * `make_context`.  `options` is the host table up to its terminator; an inconsistent table is
     * refused, and any other is mirrored in the sandbox unless memory runs out on the way.
     * `opens` is whether the sandboxed parser then answers with a context; if not, there is none.
     */
    method MakeContext(name: HostString, argv: seq<HostString>, options: seq<PoptOption>, opens: bool)
      returns (r: Crossing<Option<Context>>, ghost slotOf: map<nat, nat>, ghost kinds: seq<SlotKind>)
      requires engine.Valid() && EndsAtTerminator(options)
      requires name.NulFree() && forall i :: 0 <= i < |argv| ==> argv[i].NulFree()
      requires forall i :: 0 <= i < |options| ==> options[i].NulFree()
      requires Consistent(options) ==> DestinationsTyped(options, cells)
      modifies engine`nullMallocs, engine.heap.runtime, engine.heap.memory
      ensures engine.Valid()
      ensures Kept(old(Model()), old(Bytes()), Model(), Bytes())
      ensures r.Threw? ==> !Consistent(options) || |options| > UINT32_MAX
                           || engine.nullMallocs > old(engine.nullMallocs)
                           || OutOfRoom(Model(), name, argv, options, cells, engine.copySite)
      ensures r.Crossed? ==> Consistent(options) && engine.nullMallocs == old(engine.nullMallocs)
      ensures r.Crossed? ==> (r.value.Some? <==> opens)
      ensures r.Crossed? && opens ==> fresh(r.value.value.table.options) && fresh(r.value.value.table.slots)
      ensures r.Crossed? && opens ==> Assigned(options, slotOf, kinds) && Bound(r.value.value.slots, slotOf, kinds)
      ensures r.Crossed? && opens ==>
                r.value.value.table.slots.Length == |kinds| && r.value.value.table.options.Length == |options|
      ensures r.Crossed? && opens ==>
                Marshalled(Model(), Bytes(), r.value.value.table.options[..], r.value.value.table.slots[..],
                           r.value.value.argv, r.value.value.name, name, argv, options, slotOf, cells, engine.charHash)
    {
      slotOf, kinds := map[], [];
      ValidIsKept(engine);
      var count := OptionCount(options);
      if count.Threw? {
        return Threw, slotOf, kinds;
      }
      assert options[..count.value] == options;
      var plan := AssignSlots(options[..count.value]);
      if plan.Threw? {
        return Threw, slotOf, kinds;
      }
      slotOf, kinds := plan.value.0, plan.value.1;
      DestinationsMarshallable(options, cells, slotOf, kinds);
      var table := new Table(count.value, |plan.value.1|);
      var filled := FillContext(table, name, argv, options, plan.value.0, plan.value.1);
      if filled.Threw? {
        CellIsPassed(Model(), options, cells, slotOf, kinds, engine.copySite);
        return Threw, slotOf, kinds;
      }
      return Crossed(if opens then Some(filled.value) else None), slotOf, kinds;
    }

    /** The value a slot now stands for; a string is checked on the way. */
    method ReadSlot(table: Table, b: SlotBinding) returns (r: Crossing<Cell>)
      requires engine.Valid()
      modifies engine`trustedStrings
      ensures engine.Valid()
      ensures r == SyncedCell(Model(), Bytes(), table.slots[..], b, engine.charHash)
    {
      if b.kind == Integer {
        var value := table.SlotGetInt(b.index);
        return Crossed(IntCell(value));
      }
      var value := table.SlotGetString(b.index);
      var copy := engine.CopyChecked(value);
      return match copy case Threw => Threw case Crossed(text) => Crossed(StringCell(text));
    }

    /** `sync_slots`: copy every slot back to its destination, checking strings on the way. */
    method SyncSlots(context: Context) returns (r: Crossing<()>)
      requires engine.Valid() && DistinctAddresses(context.slots)
      modifies this`cells, engine`trustedStrings
      ensures engine.Valid()
      ensures r.Crossed? <==>
              forall i :: 0 <= i < |context.slots| ==>
                SyncedCell(Model(), Bytes(), context.table.slots[..], context.slots[i], engine.charHash).Crossed?
      ensures r.Crossed? ==>
                Synced(old(cells), cells, Model(), Bytes(), context.table.slots[..], context.slots, engine.charHash)
      ensures r.Threw? ==> exists k ::
                SyncedUpTo(old(cells), cells, Model(), Bytes(), context.table.slots[..], context.slots, k, engine.charHash)
    {
      ghost var s, mem, slots := Model(), Bytes(), context.table.slots[..];
      var i := 0;
      while i < |context.slots|
        invariant i <= |context.slots| && engine.Valid()
        invariant Synced(old(cells), cells, s, mem, slots, context.slots[..i], engine.charHash)
      {
        var b := context.slots[i];
        ghost var before := cells;
        var value := ReadSlot(context.table, b);
        if value.Threw? {
          assert SyncedUpTo(old(cells), cells, s, mem, slots, context.slots, i, engine.charHash);
          return Threw;
        }
        cells := cells[b.address := value.value];
        SyncOneMore(old(cells), before, cells, s, mem, slots, context.slots, i, engine.charHash);
        i := i + 1;
      }
      assert context.slots[..i] == context.slots;
      return Crossed(());
    }

    /** `poptGetArgs` over the array `args` of the sandboxed parser; no arguments are no array. */
    method GetArgs(args: Option<seq<Word32>>) returns (r: Crossing<Option<seq<HostString>>>)
      requires engine.Valid() && Terminated(args)
      modifies engine`trustedStrings
      ensures engine.Valid()
      ensures r == Crossed(None) <==> args.None? || args.value[0] == 0
      ensures r.Crossed? && r.value.Some? ==>
                && var values := r.value.value;
                && |values| < |args.value| && args.value[|values|] == 0
                && ReadArgs(Model(), Bytes(), args.value[..|values|], values, engine.charHash)
      ensures r.Threw? ==>
                exists i :: 0 <= i < |args.value| && 0 !in args.value[..i + 1]
                            && ReadChecked(Model(), Bytes(), args.value[i], engine.charHash).Threw?
    {
      ghost var s, mem := Model(), Bytes();
      var count := ArgsCount(args);
      if count == 0 {
        return Crossed(None);
      }
      ghost var ps := args.value;
      assert ps[0] == ps[..count][0];
      var values: seq<HostString> := [];
      var i := 0;
      while i < count
        invariant i <= count && engine.Valid()
        invariant ReadArgs(s, mem, ps[..i], values, engine.charHash)
        invariant Model() == s && Bytes() == mem
      {
        assert ps[..i] == ps[..count][..i] && ps[i] in ps[..count];
        var p := ArgsAt(args, i);
        var copy := engine.CopyChecked(p);
        assert ps[..i + 1] == ps[..count][..i + 1];
        if copy.Threw? {
          return Threw;
        }
        OneMoreArg(s, mem, ps, i, values, copy.value, engine.charHash);
        values := values + [copy.value];
        i := i + 1;
      }
      return Crossed(Some(values));
    }

    /** Opening a context and synchronising before any parsing gives every destination back. */
    method OpenAndSync(name: HostString, argv: seq<HostString>, options: seq<PoptOption>, opens: bool)
      returns (r: Crossing<Option<Context>>, synced: bool)
      requires engine.Valid() && EndsAtTerminator(options)
      requires name.NulFree() && forall i :: 0 <= i < |argv| ==> argv[i].NulFree()
      requires forall i :: 0 <= i < |options| ==> options[i].NulFree()
      requires Consistent(options) ==> DestinationsTyped(options, cells)
      modifies this`cells, engine`trustedStrings, engine`nullMallocs, engine.heap.runtime, engine.heap.memory
      ensures engine.Valid()
      ensures synced == (r.Crossed? && opens) && cells == old(cells)
      ensures r.Crossed? ==> (r.value.Some? <==> opens)
      ensures r.Threw? ==> !Consistent(options) || |options| > UINT32_MAX
                           || engine.nullMallocs > old(engine.nullMallocs)
                           || OutOfRoom(Model(), name, argv, options, cells, engine.copySite)
    {
      ghost var slotOf, kinds;
      r, slotOf, kinds := MakeContext(name, argv, options, opens);
      if r.Threw? || r.value.None? {
        return r, false;
      }
      var context := r.value.value;
      DestinationsMarshallable(options, cells, slotOf, kinds);
      synced := SyncUnparsed(context, slotOf, kinds);
    }

    /** Synchronising a context no parser has touched changes nothing. */
    method SyncUnparsed(context: Context, ghost slotOf: map<nat, nat>, ghost kinds: seq<SlotKind>)
      returns (synced: bool)
      requires engine.Valid() && Marshallable(cells, slotOf, kinds) && Injective(slotOf)
      requires Bound(context.slots, slotOf, kinds)
      requires SlotsMirror(Model(), Bytes(), context.table.slots[..], slotOf, cells, slotOf.Keys, engine.charHash)
      modifies this`cells, engine`trustedStrings
      ensures engine.Valid()
      ensures synced && cells == old(cells)
    {
      ghost var before := cells;
      SyncIsIdentity(Model(), Bytes(), context.table.slots[..], context.slots, slotOf, kinds, cells, engine.charHash);
      var outcome := SyncSlots(context);
      synced := outcome.Crossed?;
      SyncedUnchanged(before, cells, Model(), Bytes(), context.table.slots[..], context.slots, engine.charHash);
    }
  }

  /** The sandbox holds a copy of everything the host passed in. */
  ghost predicate Marshalled(
    s: State, mem: seq<Byte>, us: seq<UOption>, slots: seq<Slot>, args: seq<Word32>, title: Word32,
    name: HostString, argv: seq<HostString>, options: seq<PoptOption>,
    slotOf: map<nat, nat>, cells: map<nat, Cell>, charHash: Word)
  {
    && SlotsMirror(s, mem, slots, slotOf, cells, slotOf.Keys, charHash)
    && |us| == |options| && OptionsMirror(s, mem, us, options, slotOf, |options|, charHash)
    && AllMirror(s, mem, args, argv, charHash)
    && Mirrors(s, mem, title, name, charHash)
  }

  /** Some string destination has no place in the arena. */
  ghost predicate NoRoomForCell(s: State, cells: map<nat, Cell>, slotOf: map<nat, nat>, site: Word32) {
    exists a :: a in slotOf && a in cells && cells[a].StringCell? && Unplaceable(s, cells[a].s, site)
  }

  ghost predicate NoRoomForOption(s: State, o: PoptOption, site: Word32) {
    Unplaceable(s, o.longName, site) || Unplaceable(s, o.descrip, site) || Unplaceable(s, o.argDescrip, site)
  }

  ghost predicate NoRoomForValue(s: State, cells: map<nat, Cell>, o: PoptOption, site: Word32) {
    o.arg != 0 && o.arg in cells && cells[o.arg].StringCell? && Unplaceable(s, cells[o.arg].s, site)
  }

  /** The arena has no place left for one of the strings to be copied in. */
  ghost predicate OutOfRoom(
    s: State, name: HostString, argv: seq<HostString>, options: seq<PoptOption>, cells: map<nat, Cell>, site: Word32)
  {
    || Unplaceable(s, name, site)
    || (exists i :: 0 <= i < |argv| && Unplaceable(s, argv[i], site))
    || (exists i :: 0 <= i < |options| &&
          (NoRoomForOption(s, options[i], site) || NoRoomForValue(s, cells, options[i], site)))
  }

  lemma CellIsPassed(
    s: State, options: seq<PoptOption>, cells: map<nat, Cell>, slotOf: map<nat, nat>, kinds: seq<SlotKind>, site: Word32)
    requires Assigned(options, slotOf, kinds)
    ensures NoRoomForCell(s, cells, slotOf, site) ==>
              exists i :: 0 <= i < |options| && NoRoomForValue(s, cells, options[i], site)
  {
    if NoRoomForCell(s, cells, slotOf, site) {
      var a :| a in slotOf && a in cells && cells[a].StringCell? && Unplaceable(s, cells[a].s, site);
      var o :| o in options && o.arg != 0 && o.arg == a;
      var i :| 0 <= i < |options| && options[i] == o;
      assert NoRoomForValue(s, cells, options[i], site);
    }
  }

  lemma MirroredSlotsAreSet(
    s: State, mem: seq<Byte>, slots: seq<Slot>, slotOf: map<nat, nat>, cells: map<nat, Cell>, charHash: Word)
    requires SlotsMirror(s, mem, slots, slotOf, cells, slotOf.Keys, charHash)
    ensures forall a :: a in slotOf ==> slotOf[a] < |slots| && slots[slotOf[a]] != Unset
  {
    forall a | a in slotOf
      ensures slotOf[a] < |slots| && slots[slotOf[a]] != Unset
    {
      assert a in slotOf.Keys;
    }
  }

  /** The table ends at its first terminator. */
  ghost predicate EndsAtTerminator(options: seq<PoptOption>) {
    && options != [] && options[|options| - 1].IsTerminator()
    && forall i :: 0 <= i < |options| - 1 ==> !options[i].IsTerminator()
  }

  /** Every destination is a host variable of the kind its options ask for. */
  ghost predicate DestinationsTyped(options: seq<PoptOption>, cells: map<nat, Cell>) {
    forall i :: 0 <= i < |options| && options[i].arg != 0 ==>
      && options[i].arg in cells && OptionSlotKind(options[i]).Some?
      && cells[options[i].arg].HasKind(OptionSlotKind(options[i]).value)
      && (cells[options[i].arg].StringCell? ==> cells[options[i].arg].s.NulFree())
  }

  lemma DestinationsMarshallable(
    options: seq<PoptOption>, cells: map<nat, Cell>, slotOf: map<nat, nat>, kinds: seq<SlotKind>)
    requires Assigned(options, slotOf, kinds) && DestinationsTyped(options, cells)
    ensures Marshallable(cells, slotOf, kinds) && Injective(slotOf)
    ensures forall i :: 0 <= i < |options| ==> (options[i].arg != 0 <==> options[i].arg in slotOf)
  {
    forall a | a in slotOf
      ensures exists i :: 0 <= i < |options| && options[i].arg == a && a != 0
    {
      var o :| o in options && o.arg != 0 && o.arg == a;
      var i :| 0 <= i < |options| && options[i] == o;
    }
    forall i | 0 <= i < |options|
      ensures options[i].arg != 0 <==> options[i].arg in slotOf
    {
      assert options[i] in options;
    }
  }

  /** The first `n` copied options stand for the first `n` host options. */
  ghost predicate OptionsMirror(
    s: State, mem: seq<Byte>, us: seq<UOption>, options: seq<PoptOption>, slotOf: map<nat, nat>,
    n: nat, charHash: Word)
  {
    && n <= |us| && n <= |options|
    && forall i :: 0 <= i < n ==> OptionMirrors(s, mem, us[i], options[i], slotOf, charHash)
  }

  lemma OptionsMirrorSurvive(
    s: State, mem: seq<Byte>, t: State, mem': seq<Byte>, us: seq<UOption>, options: seq<PoptOption>,
    slotOf: map<nat, nat>, n: nat, charHash: Word)
    requires Kept(s, mem, t, mem') && OptionsMirror(s, mem, us, options, slotOf, n, charHash)
    ensures OptionsMirror(t, mem', us, options, slotOf, n, charHash)
  {
    forall i | 0 <= i < n
      ensures OptionMirrors(t, mem', us[i], options[i], slotOf, charHash)
    {
      MirrorSurvives(s, mem, t, mem', us[i].longName, options[i].longName, charHash);
      MirrorSurvives(s, mem, t, mem', us[i].descrip, options[i].descrip, charHash);
      MirrorSurvives(s, mem, t, mem', us[i].argDescrip, options[i].argDescrip, charHash);
    }
  }

  lemma OneMoreOption(
    s: State, mem: seq<Byte>, us: seq<UOption>, t: State, mem': seq<Byte>, us': seq<UOption>,
    options: seq<PoptOption>, slotOf: map<nat, nat>, n: nat, charHash: Word)
    requires Kept(s, mem, t, mem') && |us'| == |us| && n < |us| && n < |options|
    requires OptionsMirror(s, mem, us, options, slotOf, n, charHash)
    requires forall i :: 0 <= i < |us| && i != n ==> us'[i] == us[i]
    requires OptionMirrors(t, mem', us'[n], options[n], slotOf, charHash)
    ensures OptionsMirror(t, mem', us', options, slotOf, n + 1, charHash)
  {
    OptionsMirrorSurvive(s, mem, t, mem', us, options, slotOf, n, charHash);
  }

  /** Sandbox pointers that stand for host strings, one by one. */
  ghost predicate AllMirror(s: State, mem: seq<Byte>, ps: seq<Word32>, values: seq<HostString>, charHash: Word) {
    && |ps| == |values|
    && forall i :: 0 <= i < |ps| ==> Mirrors(s, mem, ps[i], values[i], charHash)
  }

  lemma AllMirrorSurvive(
    s: State, mem: seq<Byte>, t: State, mem': seq<Byte>, ps: seq<Word32>, values: seq<HostString>, charHash: Word)
    requires Kept(s, mem, t, mem') && AllMirror(s, mem, ps, values, charHash)
    ensures AllMirror(t, mem', ps, values, charHash)
  {
    forall i | 0 <= i < |ps|
      ensures Mirrors(t, mem', ps[i], values[i], charHash)
    {
      MirrorSurvives(s, mem, t, mem', ps[i], values[i], charHash);
    }
  }

  lemma SlotsMirrorSurvive(
    s: State, mem: seq<Byte>, t: State, mem': seq<Byte>, slots: seq<Slot>,
    slotOf: map<nat, nat>, cells: map<nat, Cell>, charHash: Word)
    requires Kept(s, mem, t, mem') && SlotsMirror(s, mem, slots, slotOf, cells, slotOf.Keys, charHash)
    ensures SlotsMirror(t, mem', slots, slotOf, cells, slotOf.Keys, charHash)
  {
    forall a | a in slotOf.Keys
      ensures SlotMirrors(t, mem', slots[slotOf[a]], cells[a], charHash)
    {
      SlotMirrorSurvives(s, mem, t, mem', slots[slotOf[a]], cells[a], charHash);
    }
  }

  /** Two options share a slot exactly when they share a destination. */
  lemma SharedSlotsAreSharedDestinations(
    s: State, mem: seq<Byte>, us: seq<UOption>, options: seq<PoptOption>, slotOf: map<nat, nat>,
    kinds: seq<SlotKind>, charHash: Word, i: nat, j: nat)
    requires Assigned(options, slotOf, kinds)
    requires OptionsMirror(s, mem, us, options, slotOf, |options|, charHash)
    requires i < |options| && j < |options|
    ensures us[i].arg.None? <==> options[i].arg == 0
    ensures us[i].arg == us[j].arg <==> options[i].arg == options[j].arg
  {
    forall k | 0 <= k < |options|
      ensures options[k].arg != 0 <==> options[k].arg in slotOf
    {
      assert options[k] in options;
    }
  }

  lemma SyncedUnchanged(
    before: map<nat, Cell>, after: map<nat, Cell>, s: State, mem: seq<Byte>, slots: seq<Slot>,
    bindings: seq<SlotBinding>, charHash: Word)
    requires Synced(before, after, s, mem, slots, bindings, charHash)
    requires forall i :: 0 <= i < |bindings| ==>
               bindings[i].address in before
               && SyncedCell(s, mem, slots, bindings[i], charHash) == Crossed(before[bindings[i].address])
    ensures after == before
  {
    forall a | a in after
      ensures a in before && after[a] == before[a]
    {
      if a in Addresses(bindings) {
        var b :| b in bindings && b.address == a;
        var i :| 0 <= i < |bindings| && bindings[i] == b;
      }
    }
  }

  /** A destination whose slot still mirrors it is given back unchanged. */
  lemma SyncIsIdentity(
    s: State, mem: seq<Byte>, slots: seq<Slot>, bindings: seq<SlotBinding>, slotOf: map<nat, nat>,
    kinds: seq<SlotKind>, cells: map<nat, Cell>, charHash: Word)
    requires Reachable(s) && Bound(bindings, slotOf, kinds) && Marshallable(cells, slotOf, kinds)
    requires SlotsMirror(s, mem, slots, slotOf, cells, slotOf.Keys, charHash)
    ensures forall i :: 0 <= i < |bindings| ==>
              SyncedCell(s, mem, slots, bindings[i], charHash) == Crossed(cells[bindings[i].address])
  {
    forall i | 0 <= i < |bindings|
      ensures SyncedCell(s, mem, slots, bindings[i], charHash) == Crossed(cells[bindings[i].address])
    {
      var a := bindings[i].address;
      assert SlotMirrors(s, mem, slots[slotOf[a]], cells[a], charHash);
      if cells[a].StringCell? {
        CrossingIsIdentity(s, mem, slots[slotOf[a]].p, cells[a].s, charHash);
      }
    }
  }

  ghost function Elements(order: seq<nat>): set<nat> {
    set a | a in order
  }

  ghost predicate Injective(slotOf: map<nat, nat>) {
    forall a, b :: a in slotOf && b in slotOf && slotOf[a] == slotOf[b] ==> a == b
  }

  /** The bindings of the destinations `order`, one after the other. */
  ghost predicate BindingsOf(slots: seq<SlotBinding>, order: seq<nat>, slotOf: map<nat, nat>, kinds: seq<SlotKind>) {
    && |slots| == |order|
    && forall i :: 0 <= i < |slots| ==>
         && order[i] in slotOf && slotOf[order[i]] < |kinds| && slotOf[order[i]] <= UINT32_MAX
         && slots[i] == SlotBinding(order[i], kinds[slotOf[order[i]]], slotOf[order[i]])
  }

  lemma BindingsStep(slots: seq<SlotBinding>, order: seq<nat>, slotOf: map<nat, nat>, kinds: seq<SlotKind>, i: nat)
    requires i < |order| && BindingsOf(slots, order[..i], slotOf, kinds)
    requires order[i] in slotOf && slotOf[order[i]] < |kinds| <= UINT32_MAX
    ensures Elements(order[..i + 1]) == Elements(order[..i]) + {order[i]}
    ensures BindingsOf(slots + [SlotBinding(order[i], kinds[slotOf[order[i]]], slotOf[order[i]])], order[..i + 1], slotOf, kinds)
  {
    assert order[..i + 1] == order[..i] + [order[i]];
  }

  lemma BindingsAreBound(slots: seq<SlotBinding>, order: seq<nat>, slotOf: map<nat, nat>, kinds: seq<SlotKind>)
    requires BindingsOf(slots, order, slotOf, kinds)
    requires forall a :: a in order <==> a in slotOf
    requires forall i, j :: 0 <= i < j < |order| ==> order[i] != order[j]
    ensures Bound(slots, slotOf, kinds)
  {
    forall a | a in slotOf
      ensures exists i :: 0 <= i < |slots| && slots[i].address == a
    {
      var i :| 0 <= i < |order| && order[i] == a;
      assert slots[i].address == a;
    }
  }

  /** The slots of the destinations in `done` stand for the current values of those. */
  ghost predicate SlotsMirror(
    s: State, mem: seq<Byte>, slots: seq<Slot>, slotOf: map<nat, nat>, cells: map<nat, Cell>,
    done: set<nat>, charHash: Word)
  {
    forall a :: a in done ==>
      && a in slotOf && slotOf[a] < |slots| && a in cells
      && SlotMirrors(s, mem, slots[slotOf[a]], cells[a], charHash)
  }

  /** Slots filled earlier keep mirroring when another slot is filled. */
  lemma OneMoreMirror(
    s: State, mem: seq<Byte>, slots: seq<Slot>, t: State, mem': seq<Byte>, slots': seq<Slot>,
    slotOf: map<nat, nat>, cells: map<nat, Cell>, done: set<nat>, a: nat, charHash: Word)
    requires Injective(slotOf) && Kept(s, mem, t, mem') && |slots'| == |slots|
    requires SlotsMirror(s, mem, slots, slotOf, cells, done, charHash)
    requires a in slotOf && a in cells && slotOf[a] < |slots|
    requires forall i :: 0 <= i < |slots| && i != slotOf[a] ==> slots'[i] == slots[i]
    requires SlotMirrors(t, mem', slots'[slotOf[a]], cells[a], charHash)
    ensures SlotsMirror(t, mem', slots', slotOf, cells, done + {a}, charHash)
  {
    forall b | b in done && b != a
      ensures SlotMirrors(t, mem', slots'[slotOf[b]], cells[b], charHash)
    {
      SlotMirrorSurvives(s, mem, t, mem', slots[slotOf[b]], cells[b], charHash);
    }
  }

  lemma SlotMirrorSurvives(
    s: State, mem: seq<Byte>, t: State, mem': seq<Byte>, slot: Slot, cell: Cell, charHash: Word)
    requires Kept(s, mem, t, mem') && SlotMirrors(s, mem, slot, cell, charHash)
    ensures SlotMirrors(t, mem', slot, cell, charHash)
  {
    if cell.StringCell? {
      MirrorSurvives(s, mem, t, mem', slot.p, cell.s, charHash);
    }
  }

  /** Each pointer is non-null and was accepted as the string beside it. */
  ghost predicate ReadArgs(s: State, mem: seq<Byte>, ps: seq<Word32>, values: seq<HostString>, charHash: Word) {
    && |values| == |ps|
    && forall i :: 0 <= i < |ps| ==>
         ps[i] != 0 && values[i].Text? && ReadChecked(s, mem, ps[i], charHash) == Crossed(values[i])
  }

  lemma OneMoreArg(
    s: State, mem: seq<Byte>, args: seq<Word32>, i: nat, values: seq<HostString>, value: HostString, charHash: Word)
    requires i < |args| && args[i] != 0 && ReadArgs(s, mem, args[..i], values, charHash)
    requires ReadChecked(s, mem, args[i], charHash) == Crossed(value)
    ensures ReadArgs(s, mem, args[..i + 1], values + [value], charHash)
  {
    assert args[..i + 1] == args[..i] + [args[i]];
  }

  /** In a valid engine all objects are mapped, so nothing is lost by doing nothing. */
  lemma ValidIsKept(engine: Engine)
    requires engine.Valid()
    ensures Kept(engine.heap.runtime.model, engine.heap.memory[..],
                 engine.heap.runtime.model, engine.heap.memory[..])
  {
    LiveBelowNext(engine.heap.runtime.model);
  }
}
