# Verified model of InterSpec

InterSpec is a trusted allocator and access checker for data that lives in a sandbox. A policy,
derived from the types of a program, is turned by generators into instrumented sandbox source and
trusted C++ headers. The trusted runtime hands out typed blocks of one arena, remembers for each the
type and the allocation site, and answers checks. A bridge marshals the popt library's tables and
strings across the boundary.

This project states what that system promises, as Dafny 4.11 definitions, and proves it.
`dafny verify dfyconfig.toml` checks everything.

## Layout

| files | part of the system |
|---|---|
| `Machine`, `Results`, `Texts`, `CStrings` | 64-bit and 32-bit words, the alignment mask, errors, slices of texts, C strings |
| `OrderedMap` | `std::map` as sorted entries searched by bisection |
| `Arena`, `RuntimeSpec` | the runtime as a state machine whose lookups range over all records, and its invariant |
| `PredecessorLookup`, `Runtime` | the runtime as it is written: mutable indexes, predecessor search, neighbour tests |
| `RuntimeRuns`, `StepMeaning` | what holds over whole runs and all interleavings of calls; what each single call changes, keeps and answers, record by record |
| `PolicyRuntime` | initialisation and the two-attempt allocation callback |
| `AccessChecks` | the window checks of generated headers |
| `TypedHeap` | host callbacks and the C shims for `strdup`, `free` and `realloc` over byte memory |
| `StringCrossing`, `Marshalling`, `PoptBridge` | both halves of the popt bridge |
| `TypeHash`, `PolicyTables`, `PolicyGenerators` | hashes, numbering and acceptance of policies |
| `PolicyRegistration`, `PolicyGuarantees`, `PolicyAccess` | from emitted tables to registered types and sites, all later runs, and the accesses they allow |
| `CLexer`, `SourceText`, `FunctionBodies`, `Names`, `Instrumenter`, `Noinline` | the source instrumenter |
| `SourceMeaning`, `FunctionMarks` | what its searches find and why it refuses; what marking one function does to all others |
| `Templates`, `SimultaneousEdits`, `SiteOrder`, `EditedText`, `CommentWitness`, `ScannerRoundTrip` | why its output is right, and when it is not |
| `SourceGenerators`, `GeneratedSource` | the generators as a whole, and how their source and tables fit together |

The class `Runtime` keeps a ghost `model`: the abstract state with the history of every block ever
issued. Each method ties the new `model` and its answer to one step of the state machine; the
properties of runs are proved of that machine. One method call is one critical section of the
runtime's mutex, so an interleaving of threads is a sequence of steps.

## What the code does beyond its documentation

- An arena at address 0 answers 0, the failure value, to its first grant although it records it. A
  callback then tries its second program counter and can obtain memory of another site
  (`ZeroBaseIsRecorded`, `ZeroBaseChangesAuthority`). `SecondAttempt`, `AuthorityIsKept` and
  `CallbackAllocatesDeclaredType` are equivalences over every arena, with this case as their exact
  condition. Integrations refuse base 0
  (integration/p7c_wasm_smoke.cpp:64-65); the typed heap and the bridge assume it.
- A window check of length 0 at the very end of an object is accepted, and the address it returns is
  outside the object (`EmptyWindowLeavesObject`). `ReturnedAddressInside` gives the exact condition a
  caller can test first: the window is not empty, or a check of one more byte succeeds.
- A size expression that ends in a `//` comment loses the newline that closed it, and the comment
  swallows the rest of the replacement (`CommentBreaksReplacement` is such a site, and
  `ReplacementKeepsLex` an equivalence). Edit composition
  itself does not depend on it: `FoldIsSimultaneous` has no such condition.
- Type hashes are injective on ASCII names of up to nine characters, and not beyond
  (`TenCharactersCollide`, `AccentsCollide`). Both generators detect collisions.
- The wasm generator does not refuse repeated type names; the last position numbers the type. The
  native generator refuses them.
- The SiteId base is only range-checked when there is a site (`Numberable`).
- The attribute put before one function can make another one lose its head, when one head starts inside the other
  (`NestedHeadIsLost`). `MarksEveryFunction` is an equivalence with exactly this condition, for functions with one
  head each; `MarkKept` is the equivalence for a single step, however many heads there are.

## Model

| member | source | states |
|---|---|---|
| `Machine.AlignedSize` | include/interspec/runtime.h:204-210 | `aligned_size`, computed with the 64-bit mask, is the least multiple of 8 not below the size, or fails exactly when adding 7 would wrap |
| `Machine.MaskRoundsUp` | include/interspec/runtime.h:208 | `(size + 7) & ~7` on words is arithmetic rounding up, for every size that does not wrap |
| `Machine.MaskClearsRemainder` | include/interspec/runtime.h:208 | masking any 64-bit word with `~7` removes its remainder modulo 8 |
| `OrderedMap.LowerBound` | include/interspec/runtime.h:88 | bisection finds the first entry whose key is not below the given key |
| `OrderedMap.UpperBound` | include/interspec/runtime.h:233 | bisection finds the first entry whose key is above the given key |
| `OrderedMap.Find` | include/interspec/runtime.h:140-141 | exact search: the entry of a key that is present, the end otherwise |
| `OrderedMap.Emplace` | include/interspec/runtime.h:96 | inserting keeps the keys sorted and adds exactly one binding, and does nothing when the key is present |
| `OrderedMap.Erase` | include/interspec/runtime.h:142 | erasing keeps the keys sorted and removes exactly one binding |
| `OrderedMap.SizeIsKeyCount` | include/interspec/runtime.h:130 | the number of entries is the number of bindings, since keys never repeat |
| `Arena.SameBlock` | include/interspec/runtime.h:221-226 | of all blocks ever issued, at most one contains a given address |
| `Arena.LiveAtIs` | include/interspec/runtime.h:230-241 | the live record containing an address is unique, so the lookup over all records has one answer |
| `Arena.IssueKeepsInv` | include/interspec/runtime.h:212-228 | the bump allocation keeps disjointness, bounds and the history of every block handed out |
| `RuntimeSpec.RegisterTypeKeepsInv` | include/interspec/runtime.h:52-60 | type registration keeps the two type indexes inverse to each other and changes no binding |
| `RuntimeSpec.RegisterSiteKeepsInv` | include/interspec/runtime.h:79-101 | site registration keeps the three site tables consistent and the intervals pairwise disjoint, and changes no binding |
| `RuntimeSpec.RegisterSiteIdKeepsInv` | include/interspec/runtime.h:69-77 | binding a bare SiteId keeps the site tables consistent and changes no binding |
| `RuntimeSpec.ReallocateKeepsInv` | include/interspec/runtime.h:162-180 | reallocation keeps the whole invariant of the runtime |
| `RuntimeSpec.StepKeepsInv` | include/interspec/runtime.h:52-180 | every public call keeps the whole invariant: disjoint blocks, consistent indexes, recorded provenance |
| `RuntimeSpec.ReachableInv` | include/interspec/runtime.h:44-180 | the invariant holds in every state any run can reach, from any arena |
| `RuntimeSpec.GrantReachable` | include/interspec/runtime.h:212-228 | a grant for a registered type, charged to a site only with that site's type, is itself a step of the runtime |
| `PredecessorLookup.ContainingIsPredecessor` | include/interspec/runtime.h:233-235 | a live record that contains an address is the predecessor of its upper bound |
| `PredecessorLookup.PredecessorDecides` | include/interspec/runtime.h:230-241 | testing the one predecessor gives the same answer as searching all live records, and `ptr < allocation.base` never holds of it |
| `PredecessorLookup.PredecessorSiteDecides` | include/interspec/runtime.h:243-250 | testing the one predecessor gives the same answer as searching all registered site intervals |
| `PredecessorLookup.NeighboursDecide` | include/interspec/runtime.h:88-93 | a new interval is clear of its two neighbours if and only if it is disjoint from every registered one |
| `TrustedRuntime.Runtime.constructor` | include/interspec/runtime.h:46-50 | a new runtime represents the empty state over its arena |
| `TrustedRuntime.Runtime.RegisterType` | include/interspec/runtime.h:52-60 | registers exactly when the id is nonzero and neither id nor hash is bound, and does nothing otherwise |
| `TrustedRuntime.Runtime.RegisterAllocationSiteId` | include/interspec/runtime.h:69-77 | binds exactly a fresh nonzero SiteId to a known type's hash, and does nothing otherwise |
| `TrustedRuntime.Runtime.RegisterAllocationSite` | include/interspec/runtime.h:79-101 | though it looks at two neighbours only, it succeeds exactly when id is fresh and nonzero, `0 < begin < end`, the type is known and no registered interval meets the new one; the failed-emplace branch does not occur |
| `TrustedRuntime.Runtime.Allocate` | include/interspec/runtime.h:103-108 | the new state and answer of an allocation by type, over the abstract state |
| `TrustedRuntime.Runtime.AllocateFromSite` | include/interspec/runtime.h:110-115 | the new state and answer of an allocation by SiteId |
| `TrustedRuntime.Runtime.AllocateFromPc` | include/interspec/runtime.h:117-122 | the new state and answer of an allocation by program counter, for the unique site whose interval holds it |
| `TrustedRuntime.Runtime.Release` | include/interspec/runtime.h:138-144 | removes exactly the record that starts at the pointer, keeps every other record as it is, and says whether there was one |
| `TrustedRuntime.Runtime.Reallocate` | include/interspec/runtime.h:162-180 | releases on size 0, leaves everything as it was when the new block does not fit, and otherwise swaps one record for another of the same type and site |
| `TrustedRuntime.Runtime.AllocateWithHash` | include/interspec/runtime.h:212-228 | the imperative bump allocation is the abstract grant, in every reachable state |
| `TrustedRuntime.Runtime.AllocationSize` | include/interspec/runtime.h:146-152 | the size of the record that starts at the pointer, if there is one |
| `TrustedRuntime.Runtime.AllocationSiteOf` | include/interspec/runtime.h:154-160 | the site of the record that starts at the pointer, if there is one |
| `TrustedRuntime.Runtime.AllocationCount` | include/interspec/runtime.h:128-131 | the number of entries counts the live records |
| `TrustedRuntime.Runtime.RemainingBytes` | include/interspec/runtime.h:182-190 | untracked exactly when no live object holds the pointer, wrong type exactly when one of another type does, and otherwise the bytes from the pointer to the end of that object |
| `TrustedRuntime.Runtime.Check` | include/interspec/runtime.h:192-201 | each verdict exactly when it is due, in unbounded arithmetic: no live object holds the pointer, one of another type does, one of the type ends too early, or one holds the whole range |
| `TrustedRuntime.Runtime.FindAllocation` | include/interspec/runtime.h:230-241 | predecessor search returns the unique live record that contains the address, and nothing when there is none |
| `TrustedRuntime.Runtime.FindSite` | include/interspec/runtime.h:243-250 | predecessor search returns the unique site whose interval contains the program counter, and nothing when there is none |
| `TrustedRuntime.NextBlockIsFresh` | include/interspec/runtime.h:219-224 | in a usable arena the wrap guard never fires and the emplaced key is always new |
| `RuntimeRuns.RunEvolves` | include/interspec/runtime.h:52-228 | over any run the tables only grow, the history only grows, and no object comes back to life |
| `RuntimeRuns.OneObjectPerAddress` | include/interspec/runtime.h:212-228 | across a whole run an address belongs to at most one object ever issued |
| `RuntimeRuns.UntrackedForever` | include/interspec/runtime.h:138-180 | an untracked address of the handed-out part of the arena is untracked in every later state |
| `RuntimeRuns.ReleasedForever` | include/interspec/runtime.h:138-144 | no address of a released object is ever tracked again |
| `RuntimeRuns.ReallocatedForever` | include/interspec/runtime.h:162-180 | no address of an object that was moved or freed by `reallocate` is ever tracked again |
| `RuntimeRuns.AcceptedTypesAgree` | include/interspec/runtime.h:192-201 | two accepted checks of one address, at any two times of a run, used the same type and the same object |
| `RuntimeSpec.LiveProvenance` | include/interspec/runtime.h:172-177 | every live record carries a registered type, and the type of its site if it names one |
| `RuntimeRuns.PcAndSiteAgree` | include/interspec/runtime.h:110-122 | allocating by program counter or by the id of the site found there is the same grant |
| `RuntimeRuns.SiteForever` | include/interspec/runtime.h:79-101 | a site found at a program counter is found there in every later state |
| `RuntimeRuns.ChainKeepsProvenance` | include/interspec/runtime.h:162-180 | any chain of reallocations, with any steps of other threads before each of them, keeps the type and site of its origin and leaves the origin untracked |
| `RuntimeRuns.SurvivorIsKept` | include/interspec/runtime.h:212-228 | an object that is live before and after a run is the same object |
| `RuntimeRuns.RunTiles` | include/interspec/runtime.h:221-226 | in every run the padded blocks tile the handed-out part of the arena, without gap or overlap |
| `RuntimeRuns.UsedAccounts` | include/interspec/runtime.h:218-226 | `used_` is the sum of the rounded sizes of all blocks ever issued, a multiple of 8, at most the capacity, and base plus `used_` does not wrap |
| `RuntimeRuns.PaddedBlocksDisjoint` | include/interspec/runtime.h:221-226 | padding included, blocks issued at any two times do not overlap |
| `RuntimeRuns.BlocksAligned` | include/interspec/runtime.h:204-226 | every block starts at a multiple of 8 from the arena base |
| `RuntimeRuns.GrantsAreBounded` | include/interspec/runtime.h:218-226 | at most `capacity / 8` allocations succeed in any run |
| `RuntimeRuns.ZeroReply` | include/interspec/runtime.h:212-228 | a grant changes nothing exactly when the request does not fit; the answer is 0 exactly then or when the block itself starts at address 0 |
| `RuntimeRuns.ZeroBaseIsRecorded` | include/interspec/runtime.h:221-227 | the concrete case: an arena at address 0 answers 0 to its first grant although it records it |
| `RuntimeRuns.NeverFitsAgain` | include/interspec/runtime.h:218 | a size that does not fit never fits again, whatever is released in between |
| `RuntimeRuns.CheckAccepts` | include/interspec/runtime.h:192-201 | `check` accepts if and only if one live object of the type holds the whole mathematical range, which then does not wrap |
| `RuntimeRuns.CheckMatchesRemaining` | include/interspec/runtime.h:182-201 | `check` accepts exactly the lengths up to what `remaining_bytes` reports, which is never 0 |
| `RuntimeRuns.SubrangeAccepted` | include/interspec/runtime.h:192-201 | an accepted range accepts every subrange that starts inside the object |
| `StepMeaning.ReleaseMeans` | include/interspec/runtime.h:138-144 | `release` drops exactly the record at the pointer; every other record, the tables, the history and `used_` stay |
| `StepMeaning.ChecksAfterRelease` | include/interspec/runtime.h:138-201 | after a release, addresses of the released object are untracked, and every other address is checked and measured as before |
| `StepMeaning.CheckVerdicts` | include/interspec/runtime.h:192-201 | in every reachable state, exactly when `check` answers each of its four verdicts |
| `StepMeaning.RemainingVerdicts` | include/interspec/runtime.h:182-190 | in every reachable state, exactly when `remaining_bytes` answers each verdict, and the count it gives |
| `StepMeaning.RoomMeans` | include/interspec/runtime.h:204-218 | a request fits exactly when it is positive, the arena does not wrap, and some multiple of 8 not below the request is left |
| `StepMeaning.AllocateMeans` | include/interspec/runtime.h:103-108 | an allocation by type is granted exactly when the type is known and there is room: the next block, with that type and no site, and nothing else changes |
| `StepMeaning.AllocateFromSiteMeans` | include/interspec/runtime.h:110-115 | the same for an allocation by SiteId, with the type bound to it |
| `StepMeaning.AllocateFromPcMeans` | include/interspec/runtime.h:117-122 | the same for an allocation by program counter, with the site whose interval holds it |
| `StepMeaning.ReallocateMeans` | include/interspec/runtime.h:162-180 | each outcome of `reallocate` record by record: what moves keeps type and site, and every other record stays |
| `StepMeaning.RegisterTypeMeans` | include/interspec/runtime.h:52-60 | a type is registered exactly when number and hash are new and the number is nonzero, and binds that number only |
| `StepMeaning.RegisterSiteIdMeans` | include/interspec/runtime.h:69-77 | a bare SiteId is bound exactly when it is nonzero and new and its type known, and only it is |
| `StepMeaning.RegisterSiteMeans` | include/interspec/runtime.h:79-101 | a site is registered exactly when id and interval are proper, its type known, and no program counter of the interval lies in a site already |
| `PolicyRuntimes.PolicyRuntime.Initialize` | include/interspec/policy_runtime.h:36-43 | succeeds exactly when all types and then all sites are accepted, and says where a refusal leaves the runtime |
| `PolicyRuntimes.PolicyRuntime.AllocateFromCallback` | include/interspec/policy_runtime.h:57-73 | one callback without interference is the two-attempt transition: the site of the first program counter answers if there is one and no record is made at address 0; without one, the site of the second answers |
| `PolicyRuntimes.SecondAttempt` | include/interspec/policy_runtime.h:60-71 | when the first program counter is in a site, the fallback inserts a record, under any interleaving, exactly when the first attempt recorded one at address 0 and the fallback's own site and size allow it |
| `PolicyRuntimes.UsualCallback` | include/interspec/policy_runtime.h:57-73 | without a record at address 0 the callback grants for the site of the first program counter exactly when the request fits, and otherwise leaves only the steps of other threads |
| `PolicyRuntimes.FallbackCallback` | include/interspec/policy_runtime.h:57-73 | when the first program counter lies in no site, the first attempt changes nothing and the second counter is answered, after any steps of other threads: a grant for its site exactly when it has one with room, and otherwise 0 and nothing new |
| `PolicyRuntimes.ZeroCallback` | include/interspec/policy_runtime.h:57-73 | when the first attempt makes a record at address 0, that record stays and the second counter is answered as well |
| `PolicyRuntimes.DirectCallback` | include/interspec/policy_runtime.h:57-73 | without interference, the site of the first program counter answers if there is one, and that of the second otherwise |
| `PolicyRuntimes.AuthorityIsKept` | include/interspec/policy_runtime.h:57-73 | when the first program counter is in a site, the callback hands out memory not charged to that site, whatever other threads do in between, if and only if a record was made at address 0 and the second program counter lies in another site with room |
| `PolicyRuntimes.AtMostOneRecord` | include/interspec/policy_runtime.h:57-73 | exactly when one callback inserts two records |
| `PolicyRuntimes.ZeroBaseChangesAuthority` | include/interspec/policy_runtime.h:60-72 | the concrete failure at base 0: a callback from one site obtains memory of another |
| `AccessChecks.CheckAccess` | tools/generate_policy.py:427-437 | the emitted `checked_access`: its verdict in unbounded arithmetic, and the address it returns |
| `AccessChecks.CheckDynamicAccess` | tools/generate_boundary_policy.py:156-166 | the emitted `checked_dynamic_access`: refused when the policy declares a length, otherwise the same window verdict |
| `AccessChecks.CheckWasm` | tools/generate_wasm_boundary_policy.py:276-283 | the emitted `check` of wasm headers: a declared length wins over the run-time one |
| `AccessChecks.WindowAccepted` | tools/generate_policy.py:431-436 | a window is accepted if and only if one live object of the type holds the base and the whole window; the object is unique and nothing wraps |
| `AccessChecks.ReturnedAddressInside` | tools/generate_policy.py:435-436 | the returned address is inside the accepted object, and checks there again, if and only if the window is not empty or the runtime reports bytes beyond the offset, that is, one more byte would have been accepted |
| `AccessChecks.EmptyWindowLeavesObject` | tools/generate_policy.py:431-436 | the concrete exception: an accepted empty window whose address belongs to a neighbour of another type |
| `TypedHeaps.TypedHeap.AllocateCallback` | integration/p7c_wasm_smoke.cpp:75-89 | the 32-bit allocation callback cuts nothing off: it is the allocation by SiteId |
| `TypedHeaps.TypedHeap.ReleaseCallback` | integration/p7c_wasm_smoke.cpp:90-92 | the release callback is `release`, and answers whether a live object started there |
| `TypedHeaps.TypedHeap.SizeCallback` | integration/p7c_wasm_smoke.cpp:93-99 | the size callback answers 0 exactly for pointers that start no live object; the range guard never fires |
| `TypedHeaps.TypedHeap.ReallocateCallback` | integration/p7c_wasm_smoke.cpp:100-103 | the reallocation callback cuts nothing off |
| `TypedHeaps.TypedHeap.Strdup` | integration/rsync_popt/popt_typed_shim_wasm.c:8-20 | returns null, changing nothing, exactly when the source is null or the copy cannot be placed; otherwise a new live object that holds the string, every other object and byte unchanged |
| `TypedHeaps.TypedHeap.Free` | integration/rsync_popt/popt_typed_shim.c:50-62 | a tracked pointer is released, any other non-null pointer goes to `free` with the metadata unchanged |
| `TypedHeaps.TypedHeap.Realloc` | integration/rsync_popt/popt_typed_shim.c:64-88 | which calls go to the C library, which fail and leave everything intact, and which move: then the new object is disjoint from all live ones, keeps type and site, starts with the first min(old, new) bytes, and every other object keeps its bytes (section 7.22.3.5 of ISO C11) |
| `TypedHeaps.DuplicateIsPlaced` | integration/rsync_popt/popt_typed_shim.c:33-48 | the bytes written by a duplication lie above every live object, so no object changes |
| `TypedHeaps.MoveIsPlaced` | integration/rsync_popt/popt_typed_shim_wasm.c:48-53 | the bytes written by a move lie above every live object, and records change only from the old block to the new one |
| `StringCrossing.Engine.CopyToU` | integration/rsync_popt/p4c_bridge.cpp:118-135 | throws exactly when the sandbox's `malloc` answers null or the copy cannot be placed; otherwise the result stands for the host string and every object is kept |
| `StringCrossing.Engine.CopyChecked` | integration/rsync_popt/p4c_bridge.cpp:137-172 | accepts exactly the null pointer and the strings that lie, terminator included, in one live char object; keeps one host copy of each |
| `StringCrossing.CrossingIsIdentity` | integration/rsync_popt/p4c_bridge.cpp:118-172 | copying a string in and checking it out again is the identity, null included |
| `StringCrossing.MirrorSurvives` | integration/rsync_popt/p4c_bridge.cpp:118-135 | a string copied in still stands for its original after any change that keeps all objects |
| `StringCrossing.AcceptedTextIsChecked` | integration/rsync_popt/p4c_bridge.cpp:152-171 | exactly when a string is accepted: it has no interior NUL, is terminated in memory, and `check` accepts it with its terminator as a char object; null is accepted as null |
| `Marshalling.Table.SlotSetInt` | integration/rsync_popt/p4c_bridge_untrusted.c:57-64 | stores at the index and nowhere else, or fails exactly when the index is out of range |
| `Marshalling.Table.SlotSetString` | integration/rsync_popt/p4c_bridge_untrusted.c:66-73 | stores at the index and nowhere else, or fails exactly when the index is out of range |
| `Marshalling.Table.OptionSet` | integration/rsync_popt/p4c_bridge_untrusted.c:75-105 | which calls succeed, and the exact effect of each: a failure for a bad slot has already stored the scalars |
| `Marshalling.Table.OptionSetStrings` | integration/rsync_popt/p4c_bridge_untrusted.c:107-120 | sets the three string pointers of one option only |
| `Marshalling.ArgsCount` | integration/rsync_popt/p4c_bridge_untrusted.c:190-197 | the position of the first null of the argument array, and 0 when there is no array |
| `Marshalling.ArgsAt` | integration/rsync_popt/p4c_bridge_untrusted.c:199-206 | the argument before the terminator, null from it on and when there is no array, with no read beyond the terminator |
| `Marshalling.OptionCount` | integration/rsync_popt/p4c_bridge.cpp:255-264 | the length up to the first terminator, or a failure exactly when 32 bits of options hold none |
| `Marshalling.AssignSlots` | integration/rsync_popt/p4c_bridge.cpp:299-313 | succeeds exactly on tables whose destinations have supported and agreeing types; then slots are exactly 0..k-1, one per destination, of the kind its options ask for |
| `Marshalling.ConsistentMeans` | integration/rsync_popt/p4c_bridge.cpp:299-313 | a table is accepted exactly when no destination has an unsupported type and none is a string for one option and an integer for another |
| `Marshalling.SlotKinds` | integration/rsync_popt/p4c_bridge.cpp:247-253 | string options have string slots, options of type none, int and val integer slots, and no other type is supported |
| `Marshalling.OnlyEmptyTerminates` | integration/rsync_popt/p4c_bridge.cpp:255-264 | an option ends the table exactly when it has neither long name nor short name nor destination |
| `Marshalling.SlotReads` | integration/rsync_popt/p4c_bridge_untrusted.c:122-138 | a slot gives back what was stored last, and 0 or null for the other kind or out of range |
| `PoptBridge.HashOrder` | integration/rsync_popt/p4c_bridge.cpp:323 | some order of the hash map's keys; nothing downstream depends on which |
| `PoptBridge.Bridge.FillSlots` | integration/rsync_popt/p4c_bridge.cpp:322-350 | in any order, every destination's slot comes to stand for its value and is bound to it; it fails only when memory runs out |
| `PoptBridge.Bridge.FillOption` | integration/rsync_popt/p4c_bridge.cpp:352-382 | the copied option has the host option's scalars, the slot of its destination and its three strings, and no other option changes |
| `PoptBridge.Bridge.CopyArgv` | integration/rsync_popt/p4c_bridge.cpp:390-399 | every argument string is mirrored, in order |
| `PoptBridge.Bridge.MakeContext` | integration/rsync_popt/p4c_bridge.cpp:287-413 | an inconsistent table is refused; any other is mirrored whole, unless a sandbox `malloc` answers null or the arena has no place for one of the strings; no object is disturbed, and there is a context exactly when the sandboxed parser answers with one |
| `PoptBridge.Bridge.SyncSlots` | integration/rsync_popt/p4c_bridge.cpp:266-285 | succeeds exactly when every string slot is accepted, and then sets each bound destination from its slot and nothing else; a rejection leaves exactly the destinations before the rejected slot set |
| `PoptBridge.SyncedCellMeans` | integration/rsync_popt/p4c_bridge.cpp:266-285 | what one binding is synchronised to: the stored integer or 0, null for a null slot, and a string exactly when it is terminated in one live char object |
| `PoptBridge.Bridge.GetArgs` | integration/rsync_popt/p4c_bridge.cpp:461-486 | no array exactly when there are no arguments; otherwise every argument up to the terminator is a checked string, or one of them is rejected |
| `PoptBridge.Bridge.OpenAndSync` | integration/rsync_popt/p4c_bridge.cpp:266-413 | the round trip: creating a context and synchronising before any parser step always synchronises, and leaves every destination with its value, whatever the hash order |
| `PoptBridge.SharedSlotsAreSharedDestinations` | integration/rsync_popt/p4c_bridge.cpp:306-312 | two options share a slot exactly when they share a destination |
| `PoptBridge.SyncIsIdentity` | integration/rsync_popt/p4c_bridge.cpp:266-285 | a slot that mirrors its destination synchronises back to the value the destination has |
| `TypeHash.HashType` | tools/generate_policy.py:9-13 | the loop with a 64-bit mask at every step computes the base-129 polynomial of the name modulo 2^64 |
| `TypeHash.TypeHash` | include/interspec/runtime.h:273-277 | the wrapping loop over a C string computes the same polynomial of the string's bytes |
| `TypeHash.HashesAgree` | include/interspec/runtime.h:273-277 | generator and header agree on every NUL-free name |
| `TypeHash.MaskIsMod` | tools/generate_policy.py:12 | the bitwise mask `(1 << 64) - 1` is reduction modulo 2^64 |
| `TypeHash.ShortNamesDiffer` | tools/generate_policy.py:9-13 | among ASCII names of at most nine characters equal hashes mean equal names |
| `TypeHash.TenCharactersCollide` | tools/generate_policy.py:9-13 | nine is the limit: two C identifiers of ten characters with one hash |
| `TypeHash.AccentsCollide` | tools/generate_policy.py:9-13 | ASCII is needed: two three-byte names, one with a non-ASCII letter, with one hash |
| `PolicyTables.PreparePolicy` | tools/generate_wasm_boundary_policy.py:87-97 | refuses exactly boundary types with an empty name, and otherwise composes the type list |
| `PolicyTables.ComposedTypes` | tools/generate_wasm_boundary_policy.py:94-96 | the policy's types stay in place, every boundary type is added, and none that is there already |
| `PolicyTables.TypeNumbers` | tools/generate_wasm_boundary_policy.py:179 | the dictionary loop numbers types by position |
| `PolicyTables.NumberedEntries` | tools/generate_wasm_boundary_policy.py:179 | the dictionary holds exactly one entry for each name, with the number of its last occurrence |
| `PolicyTables.FindCollision` | tools/generate_wasm_boundary_policy.py:180-187 | the hash-table loop reports a collision exactly when two names of the policy share a hash, and names such a pair |
| `PolicyTables.SiteOfAllocation` | tools/generate_policy.py:282-289 | the site numbered for a precise allocation is its rank among the precise ones and carries its type |
| `PolicyTables.LocalIdsIncrease` | tools/generate_policy.py:282-289 | precise allocations are numbered upwards in their order |
| `PolicyTables.SiteOfHelper` | tools/generate_boundary_policy.py:88-99 | the site numbered for helper `j`, after those of the precise allocations, has the type of helper `j` |
| `PolicyTables.RecordsAreDeclared` | tools/generate_wasm_boundary_policy.py:100-134 | every record is that of exactly one precise allocation, or else of exactly one helper, with its type |
| `PolicyTables.SiteRecords` | tools/generate_wasm_boundary_policy.py:100-134 | succeeds exactly when all allocations are precise, helper names are distinct and every number fits; then sites are numbered without gap from base + 1, helpers last; each error is justified by its input |
| `PolicyGenerators.EmitUses` | tools/generate_wasm_boundary_policy.py:259-272 | emits for every use the hash of its type, its offset and its length, or reports an unknown type or a negative range that is really there |
| `PolicyGenerators.CollisionFreeIsDistinct` | tools/generate_wasm_boundary_policy.py:179-187 | the emitted hashes are distinct exactly when no two different types of the policy share one |
| `PolicyGenerators.WasmRecords` | tools/generate_wasm_boundary_policy.py:331-342 | the part before the source is touched: exactly which types, allocations and helpers are accepted, and why others are not |
| `PolicyGenerators.WasmHeader` | tools/generate_wasm_boundary_policy.py:178-272 | the part after it: exactly which types and uses are accepted, and why others are not |
| `PolicyGenerators.NativeIds` | tools/generate_policy.py:269-289 | repeated types, collisions and unknown types are refused exactly, and precise allocations are ranked |
| `PolicyGenerators.PrepareUses` | tools/generate_boundary_policy.py:57-64 | a dynamic use must not declare a length, and then declares 0 |
| `SourceGenerators.GenerateWasm` | tools/generate_wasm_boundary_policy.py:330-364 | accepts exactly the stated policies whose sites can be instrumented one after the other in sorted order, emits exactly that source and those tables, and justifies every error by policy or source |
| `PolicyGenerators.EntriesCountNames` | tools/generate_policy.py:269-271 | comparing the two lengths detects exactly the repeated type names |
| `PolicyGenerators.NumberPrecise` | tools/generate_policy.py:282-289 | numbers exactly the precise allocations, each by its rank, or reports an unknown type |
| `PolicyGenerators.SiteEntries` | tools/generate_policy.py:370-377 | the entries of the precise sites, with the numbers their calls were instrumented with |
| `PolicyGenerators.HelperEntries` | tools/generate_boundary_policy.py:88-99 | helper sites continue the numbering; repeated names and unknown types are reported |
| `SourceGenerators.GenerateNative` | tools/generate_policy.py:268-424 | `generate` likewise: numbering, sorted instrumentation, attributes of the functions, other allocations, uses with the length they declare; what the emitted source is, `GeneratedSource.NativeSourceIsReplaced` says |
| `SourceGenerators.GenerateBoundary` | tools/generate_boundary_policy.py:43-151 | accepts exactly the stated policy and boundary pairs whose source can be generated, emits exactly that source (`GeneratedSource.NativeSourceIsReplaced`) and those tables, and justifies every error |
| `PolicyGenerators.EmittedTables` | tools/generate_wasm_boundary_policy.py:100-134 | whatever either generator accepts, types have distinct names, numbers and hashes, and sites are numbered without gap and name known types |
| `PolicyGenerators.ShortNamesAccepted` | tools/generate_policy.py:273-280 | no policy whose type names are ASCII of at most nine characters is refused for a collision |
| `PolicyRegistration.RegisterTypes` | tools/generate_wasm_boundary_policy.py:221-230 | offers every type even after a refusal, and answers whether all were accepted |
| `PolicyRegistration.RegisterWasmAllocationPolicy` | tools/generate_wasm_boundary_policy.py:246-257 | registers site after site up to the first refusal, and answers whether all were accepted |
| `PolicyRegistration.RegisterSites` | tools/generate_policy.py:391-398 | registers resolved intervals up to the first refusal; the test for unresolved labels never changes the outcome |
| `PolicyRegistration.TypesAccepted` | include/interspec/runtime.h:52-60 | all types are accepted if and only if their 32-bit numbers are nonzero and distinct and their hashes distinct; the type table then holds exactly them |
| `PolicyRegistration.EmittedTypesRegistrable` | tools/generate_wasm_boundary_policy.py:178-187 | every emitted type table of fewer than 2^32 types is accepted |
| `PolicyRegistration.SiteIdsAccepted` | include/interspec/runtime.h:69-77 | every emitted wasm site is accepted, and exactly the emitted ids are then bound, each to its declared type |
| `PolicyRegistration.SitesAccepted` | include/interspec/runtime.h:79-101 | native sites are all accepted if and only if their labels resolve to proper, pairwise disjoint intervals |
| `PolicyGuarantees.WasmPolicyRegisters` | tools/generate_wasm_boundary_policy.py:221-257 | on a fresh runtime an accepted wasm policy registers, exactly when its type numbers survive truncation to 32 bits, and binds each SiteId to its declared type |
| `PolicyGuarantees.WasmTablesEmitted` | tools/generate_wasm_boundary_policy.py:330-364 | the tables of every accepted policy satisfy what registration needs |
| `PolicyGuarantees.SiteIdsDecide` | include/interspec/runtime.h:110-115 | after registration and any run of clients, a SiteId inside the policy's range allocates as its declared type, and one outside is refused without effect |
| `PolicyGuarantees.NamespacesSeparate` | tools/generate_wasm_boundary_policy.py:51-57 | of two policies on runtimes of their own, no site of one is known to the other if and only if their number ranges do not meet |
| `PolicyAccess.EmittedWindow` | tools/generate_wasm_boundary_policy.py:259-272 | the emitted window of a use has the hash of its type, its offset, and its length, or 0 for a dynamic use |
| `PolicyAccess.NativeWindow` | tools/generate_policy.py:410-424 | the window that `generate` emits has the declared hash, offset and length |
| `PolicyAccess.AccessUse` | tools/generate_policy.py:410-437 | `checked_access` with the window emitted for a use accepts exactly when one live object of the type of the use holds the base and the declared window, and then returns base plus declared offset and the declared length |
| `PolicyAccess.AccessDynamicUse` | tools/generate_boundary_policy.py:156-166 | `checked_dynamic_access` accepts exactly uses without a declared length whose object holds the run-time window, and returns that window |
| `PolicyAccess.CheckUse` | tools/generate_wasm_boundary_policy.py:259-283 | the wasm `check` with the window emitted for a use accepts exactly when such an object holds the declared length, or the run-time one if none is declared |
| `PolicyAccess.WindowRefusals` | tools/generate_policy.py:427-437 | exactly when a window is refused as untracked, as of the wrong type and as out of bounds |
| `PolicyAccess.AllocatedObjectIsChecked` | tools/generate_wasm_boundary_policy.py:259-304 | from policy to access: the object a replaced `malloc` obtained is accepted for a use, for as long as it lives and whatever else runs, exactly when the use names the type declared for the allocation and its window lies in the size asked for; each refusal says which of the two failed |
| `PolicyAccess.CallbackObjectIsChecked` | tools/generate_policy.py:391-437 | the same for the object a native callback obtained, with the record at address 0 as its only exception |
| `Names.SiteNamesDiffer` | tools/generate_wasm_boundary_policy.py:43-44 | different local numbers give different allocator names |
| `Names.LabelsDiffer` | tools/generate_policy.py:168-171 | labels of different numbers or ends are different, whatever functions, namespaces and helpers they are made from |
| `Names.EmptyStem` | tools/generate_wasm_boundary_policy.py:32-36 | a namespace is refused exactly when nothing in it is alphanumeric |
| `Names.StemsAgree` | tools/generate_wasm_boundary_policy.py:28-29 | exactly which namespaces share the stem of their allocators: those that differ in case or in characters outside letters and digits |
| `Names.CppOfPart` | tools/generate_policy.py:24-26 | an alphanumeric part keeps its characters, the first in upper case |
| `Names.CppOfParts` | tools/generate_policy.py:24-26 | the text on both sides of any other character is joined |
| `PolicyGuarantees.CallNamesOneSite` | tools/generate_wasm_boundary_policy.py:43-44 | the allocator name put in place of a `malloc` is that of exactly one site: the one numbered for that allocation, with its declared type |
| `PolicyGuarantees.ReplacedCallAllocates` | tools/generate_wasm_boundary_policy.py:298-304 | in any later state, the SiteId built into that import allocates an object of the declared type, or nothing |
| `PolicyGuarantees.NativePolicyRegisters` | tools/generate_boundary_policy.py:142-151 | tables numbered from 1 are initialised if and only if the type numbers survive truncation and the labels resolve to proper, pairwise disjoint intervals |
| `PolicyGuarantees.CountersDecide` | include/interspec/runtime.h:243-250 | after initialisation and any run of clients, a program counter is answered for exactly the site whose interval holds it |
| `PolicyGuarantees.CallbackAllocatesDeclaredType` | include/interspec/policy_runtime.h:57-73 | a callback from inside the interval of a site yields nothing or an object of the type declared for that site, whatever runs before and during it, with the record at address 0 as its only and exact exception |
| `PolicyGuarantees.AcceptedPolicyInitialises` | tools/generate_boundary_policy.py:142-151 | every accepted native policy of fewer than 2^32 types and sites initialises a fresh runtime if and only if its labels resolve to proper, pairwise disjoint intervals |
| `PolicyGuarantees.AllocationCallback` | include/interspec/policy_runtime.h:57-73 | for every accepted native policy, a callback from inside the interval labelled for allocation `i` yields nothing or an object of the type declared for it, with the same exact exception |
| `CLexer.CloseOf` | tools/generate_policy.py:99-165 | the scanner's loop over five variables finds exactly the first position where the parenthesis depth, under the lexical modes, is back to 0; the exit for negative depth is never taken |
| `CLexer.ScanAppend` | tools/generate_policy.py:107-163 | lexical state is compositional: scanning a text is scanning its parts |
| `CLexer.ScanShift` | tools/generate_policy.py:147-163 | nesting already open changes nothing but the final depths |
| `CLexer.ClosesLocally` | tools/generate_policy.py:107-163 | text after the closing parenthesis does not matter |
| `CLexer.ClosingIsParen` | tools/generate_policy.py:147-160 | the character that closes the list is a `)` in code, one level deep |
| `SourceText.StripParts` | tools/generate_policy.py:152 | `strip` cuts off runs of spaces at both ends and nothing else |
| `SourceText.OffsetInvertsLocation` | tools/generate_policy.py:65-79 | `source_offset` answers an offset if and only if it is the visible character at that line and column |
| `SourceText.OffsetsIncrease` | tools/generate_policy.py:65-79 | offsets are strictly monotone in line and column |
| `SourceText.EndFollowsStart` | tools/generate_policy.py:75-79 | the end offset of a character is one past its start |
| `SourceText.OffsetLocal` | tools/generate_policy.py:65-79 | an offset found before an edit is found again after it |
| `FunctionBodies.FunctionBody` | tools/generate_policy.py:36-45 | the counting loop finds the body after the leftmost head |
| `FunctionBodies.BodyCloseFound` | tools/generate_policy.py:40-44 | a body is found if and only if the brace count of the text after the head falls to 0 |
| `FunctionBodies.BodyCloseFirst` | tools/generate_policy.py:40-45 | the body ends where that count first falls to 0 |
| `FunctionBodies.HitsMeans` | tools/generate_policy.py:40-44 | the count falls to 0 exactly when some part of the text after the head closes one brace more than it opens |
| `FunctionBodies.NetCounts` | tools/generate_policy.py:41 | the count is the number of opening less the number of closing braces |
| `FunctionBodies.FindHeadLocal` | tools/generate_policy.py:29-33 | the leftmost head, if it ends before an edit, is the leftmost head after it |
| `Instrumenter.MallocCallExtent` | tools/generate_policy.py:82-165 | the extent is the list closed under the lexical modes with its stripped text, or the error the source raises |
| `Instrumenter.InstrumentSite` | tools/generate_policy.py:181-216 | the edited source, or the error, over the definitions of offset, body and extent |
| `Instrumenter.InstrumentAll` | tools/generate_policy.py:308-309 | the loop over the sorted sites is the fold, stopping at the first error |
| `SourceMeaning.LeftmostHead` | tools/generate_policy.py:29-33 | `function_match` finds the leftmost place where the name stands as a whole word before a parenthesised list and a brace, and reports a missing function exactly when there is none |
| `SourceMeaning.EndInvertsLocation` | tools/generate_policy.py:65-79 | exactly which end offset a line and column have, one column beyond the visible line included |
| `SourceMeaning.OffsetRefusals` | tools/generate_policy.py:65-79 | exactly which places are refused as not one-based and as a missing line; the column is all that else can be wrong |
| `SourceMeaning.OpeningMeans` | tools/generate_policy.py:82-99 | exactly when an anchored `malloc` has an argument list, and which error is raised when not |
| `SourceMeaning.ExtentMeans` | tools/generate_policy.py:99-165 | exactly which anchored calls are accepted, with what argument, and which error the others raise |
| `SourceMeaning.SiteRefusals` | tools/generate_policy.py:181-204 | exactly when a site is refused as empty, as outside its function, and for a call that leaves the function |
| `SourceMeaning.SiteAccepted` | tools/generate_policy.py:181-216 | a site is accepted with an edit exactly when its two places, its function body and its call say so |
| `Templates.TemplateNet` | tools/generate_policy.py:207-215 | a replacement adds no net brace to the size expression in it |
| `Templates.BeforeOpens` | tools/generate_policy.py:207-209 | the text before the size expression leaves code open at a known depth, string literals of the labels included |
| `Templates.AfterCloses` | tools/generate_policy.py:210-215 | the text after it closes exactly what the text before it opened |
| `SimultaneousEdits.FoldIsSimultaneous` | tools/generate_policy.py:291-309 | for sites in descending order whose calls do not meet, the fold with offsets recomputed on partly edited text is one simultaneous replacement of the original calls; each site stays accepted |
| `SimultaneousEdits.PlanKept` | tools/generate_policy.py:181-216 | a site accepted on the source is accepted with the same edit after all edits behind it |
| `SimultaneousEdits.ReplacedHits` | tools/generate_policy.py:40-44 | a brace count that falls to 0 in the source falls to 0 in the edited text |
| `SimultaneousEdits.AcceptedSurvives` | tools/generate_policy.py:192-216 | an accepted call lies within a function whose brace count passes over it and comes down after it, and its replacement keeps the balance |
| `SiteOrder.SortedDescending` | tools/generate_policy.py:301-307 | the sort puts exactly the given sites in descending order |
| `SiteOrder.SortedFoldIsSimultaneous` | tools/generate_policy.py:301-309 | for sites in any order whose calls do not meet, sorting and folding replaces exactly their calls, all at once |
| `Noinline.MarkedTwice` | tools/generate_policy.py:48-62 | marking a function again changes nothing: the marker contains no head, and the leftmost head is the marked one behind it |
| `Noinline.MarkedBody` | tools/generate_policy.py:48-62 | marking leaves the text alone or moves the body of the function by the length of the marker |
| `Noinline.MarkFunctions` | tools/generate_policy.py:313-314 | the loop over the functions marks one after the other and stops at the first that is not found |
| `FunctionMarks.MarkedOnce` | tools/generate_policy.py:48-62 | marking leaves a function alone exactly when the marker stands right before its leftmost head, and otherwise puts it there and nowhere else |
| `FunctionMarks.MarkedIsMarked` | tools/generate_policy.py:48-62 | the function is marked afterwards |
| `FunctionMarks.HeadOrigin` | tools/generate_policy.py:48-62 | a marker creates no head of any function |
| `FunctionMarks.HeadKept` | tools/generate_policy.py:48-62 | and removes exactly the heads that its place is inside of |
| `FunctionMarks.MarkKept` | tools/generate_policy.py:48-62 | marking another function keeps a mark exactly when the other head does not start inside the marked head |
| `FunctionMarks.EveryFunctionMarked` | tools/generate_policy.py:313-314 | when no head starts inside another, the loop succeeds and leaves every function marked |
| `FunctionMarks.MarksEveryFunction` | tools/generate_policy.py:313-314 | for functions with one head each, the loop marks every function if and only if no head starts inside another |
| `FunctionMarks.NestedHeadIsLost` | tools/generate_policy.py:313-314 | the concrete failure: two functions are found and marked in turn, and then the first has no head |
| `Noinline.NamesSorted` | tools/generate_policy.py:313 | each function once, in order |
| `GeneratedSource.WasmSourceIsReplaced` | tools/generate_wasm_boundary_policy.py:343-355 | for an accepted policy whose sites can be instrumented and do not meet, the emitted source is the original with all calls replaced at once |
| `GeneratedSource.WasmEditCallsOneSite` | tools/generate_wasm_boundary_policy.py:79-84 | the text put in place of allocation `i` is a call of the allocator of exactly one emitted site, numbered base + i + 1, of the type declared for it |
| `GeneratedSource.NativeSitesAreReplaced` | tools/generate_policy.py:291-309 | the same for the precise allocations of the native generator |
| `GeneratedSource.NativeSourceIsReplaced` | tools/generate_policy.py:301-317 | the whole native source: the original with all precise calls replaced at once, then the marks on exactly the functions of precise allocations, then exactly the allocations without a place, in turn; nothing more when all are precise |
| `GeneratedSource.NativeFunctionsMarked` | tools/generate_policy.py:313-317 | when no head of one of those functions starts inside that of another, every function of a precise allocation is marked in it |
| `GeneratedSource.NativeMarksExactly` | tools/generate_policy.py:313-314 | with one head for each function, that condition is exact |
| `GeneratedSource.FunctionsToMark` | tools/generate_policy.py:313 | the functions that are marked are exactly those of the precise allocations, each once, in order |
| `GeneratedSource.EditIsPlaced` | tools/generate_policy.py:181-216 | the edit of an allocation starts at the visible character with its declared line and column, where `malloc` stands, within the body of its declared function |
| `GeneratedSource.NativeEditIsLabelled` | tools/generate_policy.py:206-216 | the text put in place of precise allocation `i` is an allocation between the two labels of its rank |
| `GeneratedSource.LabelText` | tools/generate_policy.py:174-178 | each label is exported as a global function symbol that is defined in place |
| `GeneratedSource.LabelsMeanOneSite` | tools/generate_policy.py:370-377 | those labels belong to exactly one emitted site, of the type declared for the allocation |
| `EditedText.CharactersKept` | tools/generate_policy.py:216 | every character outside the calls is in the edited text |
| `EditedText.OrderKept` | tools/generate_policy.py:216 | and the kept characters keep their order |
| `EditedText.ReplacedAround` | tools/generate_policy.py:216 | around each edit stands its text, between the replacement of what is before it and that of what is behind it |
| `EditedText.ReplacementKeepsLex` | tools/generate_policy.py:152-216 | a replacement keeps lexical mode and nesting if and only if the stripped size expression does not end inside a `//` comment |
| `CommentWitness.CommentBreaksReplacement` | tools/generate_policy.py:152-160 | the concrete failure: an accepted site whose size expression ends in a `//` comment and whose replacement does not scan like the call |
| `EditedText.InstrumentedContext` | tools/generate_policy.py:291-309 | every character outside the calls keeps its lexical mode and its depth of parentheses and braces in the instrumented source |
| `ScannerRoundTrip.ScanRecoversArgument` | tools/generate_policy.py:82-165 | scanning `malloc(` + any balanced argument + `)` between any two texts gives the argument back |
| `ScannerRoundTrip.ScanRecoversPrinted` | tools/generate_policy.py:82-165 | so does scanning a call printed from any nest of lists, literals with escapes, and both kinds of comments |

## Left out

- The mutex: each public method of the runtime is one atomic step; performance is not modelled.
- The getters `base`, `capacity`, `arena_valid` and `allocation_site_count`, and `find_site_by_id_unlocked`, which nothing calls.
- Hash tables of the runtime are maps: their bucket order is never visible there. In the bridge, where it is, an arbitrary order stands for it.
- `std::map` is modelled by sorted entries with bisection, not by a balanced tree.
- Exhaustion of host memory (`std::bad_alloc` in containers, `calloc` of the sandbox table and argument box) is not modelled; null answers of the sandbox's `malloc` are.
- The sandbox backends, symbol lookup, wasm linking and the popt parser itself: foreign code. Parser steps are not part of the model; the label resolver, the program counters of a callback, whether the sandboxed parser opens a context, and the parser's argument array are parameters.
- The measurement-only build of `copy_checked` without validation.
- `POPT_ARG_MASK`: an option's masked type is a field of its own beside `argInfo`.
- TypedHeaps.TypedHeap.Strdup: the native shim allocates by program counter; it is modelled by the SiteId the counter belongs to, and `RuntimeRuns.PcAndSiteAgree` links the two.
- TypedHeaps.TypedHeap.Realloc: the lifetime callbacks are present or absent together, as `interspec_popt_init_lifetime` sets them; what `libc` does with an untracked pointer is foreign code.
- TypedHeaps.TypedHeap.InitLifetime: one flag stands for the callback pointers.
- Overlap of `memcpy` source and destination cannot occur for tracked blocks and is not given a meaning otherwise.
- SourceGenerators.GenerateNative: `instrument_legacy`, the rewriting of allocations without a place, is a parameter: any function from text to text or error.
- SimultaneousEdits.FoldIsSimultaneous: a `malloc` inside the argument list of another one is accepted by the generators site by site; for calls that meet in this way no theorem is stated, because one replacement of the original spans does not describe the result.
- FunctionMarks.MarksEveryFunction: function names are identifiers. A name with several heads may be marked at another head when its first is lost; for such texts the sufficient half (`EveryFunctionMarked`) and the equivalence for each single step (`MarkKept`) are stated.
- Function heads: the regular expression is modelled by its meaning for ASCII word characters; Unicode word characters and digits are not.
- Names of macros and C++ identifiers: one policy's mangled names are assumed distinct, and tables are keyed by the type name instead of its C++ identifier. Labels and wasm allocator names are modelled and proved distinct.
- Literal header text, host import stubs and command lines; emitted tables are data.
- JSON shapes: a missing `bytes` of a static use, non-string names and non-integer numbers are not represented. A fixed use with a `bytes` value that does not fit `size_t` yields a header that does not compile.
- PolicyGuarantees.NativePolicyRegisters: more than 2^32 - 1 native sites, for which the header would not compile, are excluded.
- PoptBridge.Bridge.MakeContext: a negative argument count, or a positive one without an array, is refused by the source first; an argument list of the model always has its length.
- Control-flow integrity and the identity of the intended object, which the system does not claim.
- Benchmarks, reports, renderers, packaging, CodeQL queries and drivers.
