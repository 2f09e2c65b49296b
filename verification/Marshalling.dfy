/**
 * Marshalling of popt option tables across the sandbox boundary: destinations are deduplicated
 * into slots, the table is copied in, and slot values are copied back to the destinations.
 */
module Marshalling {
  import opened Machine
  import opened RuntimeSpec
  import opened TypedHeaps
  import opened StringCrossing

  type CInt = i: int | -0x8000_0000 <= i <= 0x7FFF_FFFF

  // ----- the untrusted half

  /** A slot as `calloc` leaves it, or with the kind tag and value last stored. */
  datatype Slot = Unset | IntSlot(i: CInt) | StringSlot(p: Word32)

  /** A copied option; `arg` is the slot its destination pointer leads to. */
  datatype UOption = UOption(
    shortName: Byte, argInfo: Word32, val: CInt, arg: Option<nat>,
    longName: Word32, descrip: Word32, argDescrip: Word32)

  const ZERO_OPTION := UOption(0, 0, 0, None, 0, 0, 0)

  class Table {
    const options: array<UOption>
    const slots: array<Slot>

    constructor (optionCount: nat, slotCount: nat)
      ensures fresh(options) && fresh(slots)
      ensures options[..] == seq(optionCount, _ => ZERO_OPTION)
      ensures slots[..] == seq(slotCount, _ => Unset)
    {
      options := new UOption[optionCount](_ => ZERO_OPTION);
      slots := new Slot[slotCount](_ => Unset);
    }

    method SlotSetInt(index: Word32, value: CInt) returns (ok: bool)
      modifies slots
      ensures ok == (index < slots.Length)
      ensures slots[..] == if ok then old(slots[..])[index := IntSlot(value)] else old(slots[..])
    {
      if index >= slots.Length {
        return false;
      }
      slots[index] := IntSlot(value);
      return true;
    }

    method SlotSetString(index: Word32, value: Word32) returns (ok: bool)
      modifies slots
      ensures ok == (index < slots.Length)
      ensures slots[..] == if ok then old(slots[..])[index := StringSlot(value)] else old(slots[..])
    {
      if index >= slots.Length {
        return false;
      }
      slots[index] := StringSlot(value);
      return true;
    }

    /** The slot index `UINT32_MAX` stands for an option without a destination. */
    method OptionSet(index: Word32, shortName: Byte, argInfo: Word32, slotIndex: Word32, value: CInt)
      returns (ok: bool)
      modifies options
      ensures ok == (index < options.Length
                     && (slotIndex == UINT32_MAX || (slotIndex < slots.Length && slots[slotIndex] != Unset)))
      ensures index >= options.Length ==> options[..] == old(options[..])
      ensures ok ==>
                options[..] == old(options[..])[index := old(options[index]).(
                  shortName := shortName, argInfo := argInfo, val := value,
                  arg := if slotIndex == UINT32_MAX then None else Some(slotIndex))]
      ensures !ok && index < options.Length ==>
                options[..] == old(options[..])[index := old(options[index]).(
                  shortName := shortName, argInfo := argInfo, val := value)]
    {
      if index >= options.Length {
        return false;
      }
      options[index] := options[index].(shortName := shortName, argInfo := argInfo, val := value);
      if slotIndex == UINT32_MAX {
        options[index] := options[index].(arg := None);
        return true;
      }
      if slotIndex >= slots.Length || slots[slotIndex].Unset? {
        return false;
      }
      options[index] := options[index].(arg := Some(slotIndex));
      return true;
    }

    method OptionSetStrings(index: Word32, longName: Word32, descrip: Word32, argDescrip: Word32)
      returns (ok: bool)
      modifies options
      ensures ok == (index < options.Length)
      ensures options[..] ==
              if ok then
                old(options[..])[index := old(options[index]).(
                  longName := longName, descrip := descrip, argDescrip := argDescrip)]
              else old(options[..])
    {
      if index >= options.Length {
        return false;
      }
      options[index] := options[index].(longName := longName, descrip := descrip, argDescrip := argDescrip);
      return true;
    }

    function SlotGetInt(index: Word32): CInt
      reads slots
    {
      GetInt(slots[..], index)
    }

    function SlotGetString(index: Word32): Word32
      reads slots
    {
      GetString(slots[..], index)
    }
  }

  /** `interspec_p4c_slot_get_int`: 0 unless the slot is tagged as an integer. */
  function GetInt(slots: seq<Slot>, index: nat): CInt {
    if index < |slots| && slots[index].IntSlot? then slots[index].i else 0
  }

  /** `interspec_p4c_slot_get_string`: null unless the slot is tagged as a string. */
  function GetString(slots: seq<Slot>, index: nat): Word32 {
    if index < |slots| && slots[index].StringSlot? then slots[index].p else 0
  }

  /** The argument array of the sandboxed parser: none at all, or one that null terminates. */
  predicate Terminated(args: Option<seq<Word32>>) {
    args.Some? ==> 0 in args.value
  }

  /** `interspec_p4c_args_count` on the array the parser returned. */
  method ArgsCount(args: Option<seq<Word32>>) returns (count: nat)
    requires Terminated(args)
    ensures args.None? ==> count == 0
    ensures args.Some? ==> count < |args.value| && args.value[count] == 0 && 0 !in args.value[..count]
  {
    if args.None? {
      return 0;
    }
    var ps := args.value;
    count := 0;
    while ps[count] != 0
      invariant count < |ps| && 0 !in ps[..count]
      decreases |ps| - count
    {
      assert ps == ps[..count + 1] + ps[count + 1..];
      count := count + 1;
    }
  }

  /** `interspec_p4c_args_at`: null from the terminator on, without reading past it. */
  method ArgsAt(args: Option<seq<Word32>>, index: nat) returns (p: Word32)
    requires Terminated(args)
    ensures p == if args.Some? && index < |args.value| && 0 !in args.value[..index] then args.value[index] else 0
  {
    if args.None? {
      return 0;
    }
    var ps := args.value;
    var i := 0;
    while i < index
      invariant i <= index && i < |ps| && 0 !in ps[..i]
    {
      if ps[i] == 0 {
        assert index < |ps| ==> ps[..index][i] == 0;
        return 0;
      }
      assert ps == ps[..i + 1] + ps[i + 1..];
      i := i + 1;
    }
    return ps[index];
  }

  // ----- the trusted half

  /** `argInfo & POPT_ARG_MASK` */
  datatype ArgType = ArgNone | ArgString | ArgInt | ArgVal | ArgOther

  /** A host option; `arg` is the address of its destination, 0 for none. */
  datatype PoptOption = PoptOption(
    longName: HostString, shortName: Byte, argInfo: Word32, argType: ArgType, arg: nat,
    val: CInt, descrip: HostString, argDescrip: HostString)
  {
    predicate IsTerminator() { longName.Null? && shortName == 0 && arg == 0 }

    predicate NulFree() { longName.NulFree() && descrip.NulFree() && argDescrip.NulFree() }
  }

  datatype SlotKind = Integer | Str

  /** A destination variable of the host. */
  datatype Cell = IntCell(i: CInt) | StringCell(s: HostString) {
    predicate HasKind(kind: SlotKind) { IntCell? <==> kind == Integer }
  }

  datatype SlotBinding = SlotBinding(address: nat, kind: SlotKind, index: Word32)

  function OptionSlotKind(o: PoptOption): Option<SlotKind> {
    match o.argType
    case ArgString => Some(Str)
    case ArgNone => Some(Integer)
    case ArgInt => Some(Integer)
    case ArgVal => Some(Integer)
    case ArgOther => None
  }

  /** Number of options up to and including the first terminator. */
  method OptionCount(options: seq<PoptOption>) returns (r: Crossing<Word32>)
    requires exists i :: 0 <= i < |options| && options[i].IsTerminator()
    ensures r.Crossed? ==>
              && 0 < r.value <= |options|
              && options[r.value - 1].IsTerminator()
              && (forall i :: 0 <= i < r.value - 1 ==> !options[i].IsTerminator())
    ensures r == Threw ==>
              |options| > UINT32_MAX && forall i :: 0 <= i < UINT32_MAX ==> !options[i].IsTerminator()
  {
    var count: nat := 0;
    while true
      invariant count <= |options| && count <= UINT32_MAX
      invariant forall i :: 0 <= i < count ==> !options[i].IsTerminator()
      decreases |options| - count
    {
      if count == UINT32_MAX {
        return Threw;
      }
      count := count + 1;
      if options[count - 1].IsTerminator() {
        return Crossed(count);
      }
    }
  }

  // ----- slots

  /** Every destination has a supported type, and options sharing one agree on its kind. */
  predicate Consistent(options: seq<PoptOption>) {
    && (forall i :: 0 <= i < |options| && options[i].arg != 0 ==> OptionSlotKind(options[i]).Some?)
    && (forall i, j :: 0 <= i < |options| && 0 <= j < |options| && options[i].arg != 0
                       && options[i].arg == options[j].arg ==>
          OptionSlotKind(options[i]) == OptionSlotKind(options[j]))
  }

  ghost function Destinations(options: seq<PoptOption>): set<nat> {
    set o | o in options && o.arg != 0 :: o.arg
  }

  /** Slots are exactly `0..|kinds|`, one for each destination, of the kind its options ask for. */
  ghost predicate Assigned(options: seq<PoptOption>, slotOf: map<nat, nat>, kinds: seq<SlotKind>) {
    && slotOf.Keys == Destinations(options)
    && (forall a, b :: a in slotOf && b in slotOf && slotOf[a] == slotOf[b] ==> a == b)
    && (forall a :: a in slotOf ==> slotOf[a] < |kinds|)
    && (forall n: nat :: n in slotOf.Values <==> n < |kinds|)
    && (forall i :: 0 <= i < |options| && options[i].arg != 0 ==>
          Some(kinds[slotOf[options[i].arg]]) == OptionSlotKind(options[i]))
  }

  method AssignSlots(options: seq<PoptOption>) returns (r: Crossing<(map<nat, nat>, seq<SlotKind>)>)
    ensures r.Crossed? <==> Consistent(options)
    ensures r.Crossed? ==> Assigned(options, r.value.0, r.value.1)
    ensures r.Crossed? ==> |r.value.1| <= |options|
  {
    var slotOf: map<nat, nat>, kinds: seq<SlotKind> := map[], [];
    NothingAssigned(options);
    var i := 0;
    ghost var done := options[..0];
    while i < |options|
      invariant i <= |options| && done == options[..i]
      invariant Assigned(done, slotOf, kinds)
      invariant |kinds| <= i
      invariant Consistent(done)
    {
      var o := options[i];
      ghost var before, kindsBefore := slotOf, kinds;
      if o.arg != 0 {
        var kind := OptionSlotKind(o);
        if kind.None? {
          return Threw;
        }
        if o.arg !in slotOf {
          slotOf := slotOf[o.arg := |kinds|];
          kinds := kinds + [kind.value];
        } else if kinds[slotOf[o.arg]] != kind.value {
          Conflict(options, i, slotOf, kinds);
          return Threw;
        }
      }
      OneMoreDestination(options, i, before, kindsBefore, slotOf, kinds);
      done := options[..i + 1];
      i := i + 1;
    }
    assert options[..i] == options;
    return Crossed((slotOf, kinds));
  }

  lemma NothingAssigned(options: seq<PoptOption>)
    ensures Assigned(options[..0], map[], []) && Consistent(options[..0])
  {
  }

  /** The loop state of `AssignSlots` after an option whose destination is new, known or absent. */
  lemma OneMoreDestination(options: seq<PoptOption>, i: nat, slotOf: map<nat, nat>, kinds: seq<SlotKind>,
                      slotOf': map<nat, nat>, kinds': seq<SlotKind>)
    requires i < |options| && Assigned(options[..i], slotOf, kinds) && Consistent(options[..i])
    requires var o := options[i];
             if o.arg == 0 then slotOf' == slotOf && kinds' == kinds
             else if o.arg in slotOf then
               slotOf' == slotOf && kinds' == kinds && Some(kinds[slotOf[o.arg]]) == OptionSlotKind(o)
             else
               OptionSlotKind(o).Some? && slotOf' == slotOf[o.arg := |kinds|] && kinds' == kinds + [OptionSlotKind(o).value]
    ensures Assigned(options[..i + 1], slotOf', kinds') && Consistent(options[..i + 1])
  {
    NoZeroSlot(options[..i], slotOf, kinds);
    KeepsConsistent(options, i, slotOf, kinds);
    ExtendedKeys(options[..i], options[i], slotOf, kinds, slotOf', kinds');
    ExtendedValues(options[..i], options[i], slotOf, kinds, slotOf', kinds');
    ExtendedKinds(options[..i], options[i], slotOf, kinds, slotOf', kinds');
    assert options[..i + 1] == options[..i] + [options[i]];
  }

  /** What one more option does to the slots. */
  ghost predicate Extended(o: PoptOption, slotOf: map<nat, nat>, kinds: seq<SlotKind>,
                           slotOf': map<nat, nat>, kinds': seq<SlotKind>)
  {
    if o.arg == 0 || o.arg in slotOf then slotOf' == slotOf && kinds' == kinds
    else
      && OptionSlotKind(o).Some?
      && slotOf' == slotOf[o.arg := |kinds|] && kinds' == kinds + [OptionSlotKind(o).value]
  }

  lemma NoZeroSlot(options: seq<PoptOption>, slotOf: map<nat, nat>, kinds: seq<SlotKind>)
    requires Assigned(options, slotOf, kinds)
    ensures 0 !in slotOf
  {
  }

  lemma ExtendedKeys(options: seq<PoptOption>, o: PoptOption, slotOf: map<nat, nat>, kinds: seq<SlotKind>,
                     slotOf': map<nat, nat>, kinds': seq<SlotKind>)
    requires slotOf.Keys == Destinations(options)
    requires Extended(o, slotOf, kinds, slotOf', kinds')
    ensures slotOf'.Keys == Destinations(options + [o])
  {
    assert o in options + [o];
    assert forall q :: q in options ==> q in options + [o];
  }

  lemma ExtendedValues(options: seq<PoptOption>, o: PoptOption, slotOf: map<nat, nat>, kinds: seq<SlotKind>,
                       slotOf': map<nat, nat>, kinds': seq<SlotKind>)
    requires forall n: nat :: n in slotOf.Values <==> n < |kinds|
    requires Extended(o, slotOf, kinds, slotOf', kinds')
    ensures forall n: nat :: n in slotOf'.Values <==> n < |kinds'|
  {
    forall n: nat
      ensures n in slotOf'.Values <==> n < |kinds'|
    {
      if n in slotOf.Values {
        var a :| a in slotOf && slotOf[a] == n;
        assert a in slotOf' && slotOf'[a] == n;
      } else if n == |kinds| && n < |kinds'| {
        assert o.arg in slotOf' && slotOf'[o.arg] == n;
      }
    }
  }

  lemma ExtendedKinds(options: seq<PoptOption>, o: PoptOption, slotOf: map<nat, nat>, kinds: seq<SlotKind>,
                      slotOf': map<nat, nat>, kinds': seq<SlotKind>)
    requires Assigned(options, slotOf, kinds)
    requires Extended(o, slotOf, kinds, slotOf', kinds')
    requires o.arg in slotOf ==> Some(kinds[slotOf[o.arg]]) == OptionSlotKind(o)
    requires slotOf'.Keys == Destinations(options + [o])
    ensures var all := options + [o];
            forall i :: 0 <= i < |all| && all[i].arg != 0 ==>
              slotOf'[all[i].arg] < |kinds'| && Some(kinds'[slotOf'[all[i].arg]]) == OptionSlotKind(all[i])
  {
    var all := options + [o];
    forall i | 0 <= i < |all| && all[i].arg != 0
      ensures slotOf'[all[i].arg] < |kinds'| && Some(kinds'[slotOf'[all[i].arg]]) == OptionSlotKind(all[i])
    {
      if i < |options| {
        assert options[i] in options;
        assert options[i].arg in slotOf;
      }
    }
  }

  /** A destination already seen with another kind makes the table inconsistent. */
  lemma Conflict(options: seq<PoptOption>, i: nat, slotOf: map<nat, nat>, kinds: seq<SlotKind>)
    requires i < |options| && Assigned(options[..i], slotOf, kinds)
    requires options[i].arg in slotOf && Some(kinds[slotOf[options[i].arg]]) != OptionSlotKind(options[i])
    ensures !Consistent(options)
  {
    var q :| q in options[..i] && q.arg != 0 && q.arg == options[i].arg;
    var j :| 0 <= j < i && options[..i][j] == q;
  }

  lemma KeepsConsistent(options: seq<PoptOption>, i: nat, slotOf: map<nat, nat>, kinds: seq<SlotKind>)
    requires i < |options| && Assigned(options[..i], slotOf, kinds) && Consistent(options[..i])
    requires options[i].arg != 0 ==> OptionSlotKind(options[i]).Some?
    requires options[i].arg in slotOf ==> Some(kinds[slotOf[options[i].arg]]) == OptionSlotKind(options[i])
    ensures Consistent(options[..i + 1])
  {
    forall j | 0 <= j < i && options[j].arg != 0 && options[j].arg == options[i].arg
      ensures OptionSlotKind(options[j]) == OptionSlotKind(options[i])
    {
      assert options[..i][j] in options[..i];
      assert options[i].arg in slotOf;
    }
  }

  // ----- what the host's options mean

  /** The destination of an option of type none, int or val is an integer, that of a string option a string. */
  lemma SlotKinds(o: PoptOption)
    ensures OptionSlotKind(o) == Some(Str) <==> o.argType == ArgString
    ensures OptionSlotKind(o) == Some(Integer) <==> o.argType == ArgNone || o.argType == ArgInt || o.argType == ArgVal
    ensures OptionSlotKind(o) == None <==> o.argType == ArgOther
  {
  }

  /**
   * A table is consistent exactly when no destination has another type than those, and no
   * destination is a string for one option and an integer for another.
   */
  lemma ConsistentMeans(options: seq<PoptOption>)
    ensures Consistent(options) <==>
            && (forall i :: 0 <= i < |options| && options[i].arg != 0 ==> options[i].argType != ArgOther)
            && (forall i, j :: 0 <= i < |options| && 0 <= j < |options| && options[i].arg != 0
                               && options[i].arg == options[j].arg && options[i].argType == ArgString ==>
                  options[j].argType == ArgString)
  {
    forall i | 0 <= i < |options|
      ensures options[i].argType == ArgString <==> OptionSlotKind(options[i]) == Some(Str)
      ensures options[i].argType == ArgOther <==> OptionSlotKind(options[i]) == None
    {
      SlotKinds(options[i]);
    }
  }

  /** An option that has a long name, a short name or a destination does not end its table. */
  lemma OnlyEmptyTerminates(o: PoptOption)
    ensures o.longName.Text? ==> !o.IsTerminator()
    ensures o.shortName != 0 ==> !o.IsTerminator()
    ensures o.arg != 0 ==> !o.IsTerminator()
    ensures o.longName.Null? && o.shortName == 0 && o.arg == 0 ==> o.IsTerminator()
  {
  }

  /** A slot gives back what was stored in it last, and 0 or null when that was of the other kind. */
  lemma SlotReads(slots: seq<Slot>, index: Word32, i: CInt, p: Word32)
    requires index < |slots|
    ensures GetInt(slots[index := IntSlot(i)], index) == i && GetString(slots[index := IntSlot(i)], index) == 0
    ensures GetString(slots[index := StringSlot(p)], index) == p && GetInt(slots[index := StringSlot(p)], index) == 0
    ensures GetInt(slots[index := Unset], index) == 0 && GetString(slots[index := Unset], index) == 0
  {
  }

  /** The other slots, and the absence of slots out of range, do not depend on what is stored. */
  lemma OtherSlotsRead(slots: seq<Slot>, index: Word32, v: Slot, j: nat)
    requires index < |slots| && j != index
    ensures GetInt(slots[index := v], j) == GetInt(slots, j)
    ensures GetString(slots[index := v], j) == GetString(slots, j)
    ensures j >= |slots| ==> GetInt(slots, j) == 0 && GetString(slots, j) == 0
  {
  }
}
