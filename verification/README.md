# WhisezOS: verified models of the kernel, SpectreFS, SpectreShield and the PE loader

This project models the parts of WhisezOS that keep state or do arithmetic that matters, and
proves what they promise. Each module follows one source file:

| files | source | what is proved |
|---|---|---|
| `Addr`, `Paging`, `PagingProofs`, `PagingTheorems`, `PagingRights`, `PagingRuns`, `PagingMachine` | `arch/addr.rs`, `arch/paging.rs` | page tables are a tree and refine a flat map from addresses to pages, over any run in which frames for tables run out and come back; what rights the hardware grants, and how long |
| `Bits`, `Frames`, `FrameRuns` | `arch/frame.rs` | the bitmap agrees with a set of free frames; runs never hand a frame out twice, out of a reservation, or out of memory that was not added |
| `Context`, `ContextRuns` | `arch/context.S`, `arch/context.rs` | a thread cannot tell that it was switched out; a new thread resumes like any other |
| `Heuristic`, `HeuristicTheorems`, `HeuristicDecay`, `HeuristicScores` | `spectreshield/src/heuristic.rs` | for which roles the ransomware combination always suspends; the law of decay over any run, and where it does not keep up; what bursts score |
| `RtAdmission`, `RunQueues` | `sched.rs` | the real-time counter in every interleaving; queue order; over any run every thread is accounted for |
| `Ports` | `ipc.rs` | the notification ring refines a bounded queue, across wrap-around, in every interleaving |
| `Capabilities`, `CapabilityRuns` | `cap.rs` | the open-addressed table refines a map until something is revoked; from then on, exactly which tokens can still be found, and exactly when it is still a map |
| `BlockMap`, `Uberblocks`, `Pruning`, `PruningTheorems` | `layout.rs` | block location is an order-preserving bijection; a mount finds the last completed commit; prune plans are exact |
| `Vault`, `VaultRuns` | `vault.rs` | over runs of sealing, opening, rotating and sweeping and an ideal cipher: what opens, and when a nonce is used again; the sweep's accounting |
| `Pe`, `PeTheorems`, `PeLayout` | `winbridge/src/pe.rs` | parsing is the inverse of the file's layout: exactly which files are accepted, and as what; the geometry of accepted images, what each refusal says |

`Words`, `Arith` and `Wrappers` hold word widths, a few facts of integer arithmetic, and
`Option`/`Result`.

Code that updates state in place is a class whose methods have the source's loops and branches
(`PagingMachine`, `FrameMachine.FrameAllocator`, `Contexts.Cpu`, `Heuristic.ProcessProfile`,
`RunQueues.*Queue`, `Ports.Port`, `Capabilities.CapSet`, `Vault.Arena`). Each such method is
proved equal to a function or relation on values; lemmas and run invariants are about those.
Code that many processors execute at once is a relation between states, one atomic access a step.

## Assumptions

- Machine words are natural numbers with their width written out wherever the source can reach it:
  saturation, wrap-around and truncation are explicit. Page flags are 64-bit vectors.
- `alloc_table` returns frames that are page-aligned, zeroed, distinct and not yet tables; which frames it has
  may change between calls. The tables of one address space are reached only through it.
- Flags given to `map_page` are among those `PageFlags` names (bits 0 to 11 and 63), as its type makes sure.
- Frame numbers stay below 2^40 and the bitmap has a word for every 64 managed frames. The end of
  a region does not wrap around.
- Memory in the context switch is addressed in aligned eight-byte slots; kernel stacks are mapped
  in every address space; only the switch writes `cr3`; threads keep to their own stacks and do
  not write contexts.
- Times seen by a process profile do not go back.
- Atomics are sequentially consistent steps.
- A torn uberblock write leaves the old contents, nothing, or something whose checksum does not match.
  The checksum is an arbitrary function. Transaction numbers and vault epochs do not wrap around.
- The vault's cipher is ideal, and every rotation draws a key never drawn before. Nobody forges a tag: whoever
  asks to open a page brings any contents, with a tag that was issued before or made with a key the arena never had.
- A vault arena lies within the address space.
- A sort used by pruning is any function that sorts.

## Where the code differs from its documentation, or from what one would expect

- `ipc.rs:19` and `ipc.rs:54` say that a full ring drops a message, the oldest one. The code
  refuses the new note and keeps the old ones (`ipc.rs:271-274`). The model follows the code.
- `layout.rs:44-48` calls four uberblock slots the minimum. For torn writes two are enough, and one
  is not (`Uberblocks.TwoSlotsSufficeExactly`).
- `heuristic.rs:132-139` wants the ransomware combination to be decisive after role discounts. It
  is for no role, backup agents and sandboxed anti-cheat; a compiler can end at 109 and an
  encryption tool at 106, below 110 (`HeuristicTheorems.RansomwareAlwaysSuspendsExactly`).
- `heuristic.rs:239-243` has scores decay so that a long-running process does not accumulate score for ever. What
  is left over is rounded in favour of the score at every observation, so that one made soon enough takes nothing off
  (`HeuristicDecay.StallsExactly`): a process observed every five seconds never decays below the threshold and is
  suspended, whatever it does (`HeuristicDecay.BusyProcessIsSuspended`).
- `sched.rs:182` cuts the measured share to 32 bits, so that a large enough demand is measured as
  nothing (`RtAdmission.MeasuredExactly`, `RtAdmission.HugeDemandCountsAsNothing`).
- `sched.rs:262-267` takes a foreign thread off the queue of an isolated processor and drops it
  (`RunQueues.PickConservesExactly`, `RunQueues.RunConserves`, `RunQueues.DroppedExactly`).
- `cap.rs:206-216` leaves no tombstones, so a revocation can hide other tokens, and a later insertion
  can bring them back (`CapabilityRuns.RunReachesExactly`, `CapabilityRuns.StaysAMapExactly`,
  `CapabilityRuns.RevocationCanHideOthers`).
- `frame.rs:120-128` does not rewind the hint, so that `alloc` is not first-fit after a late
  `add_region` (`FrameRuns.NextFitIsFirstFitExactly`, `FrameRuns.AddRegionDoesNotRewindHint`).
- `frame.rs:131-147` withholds one frame for a reservation of no bytes that does not start on a
  frame boundary (`FrameRuns.EmptyReservationExactly`).
- `frame.rs:263-266` reports as `largest_run` what `largest_free_run` would answer exactly when a free
  run that long begins at an aligned place with as many managed frames from there on as were asked
  for (`Frames.ReportsLongestRunExactly`). Runs elsewhere are missed, for their alignment or, at
  any alignment, near the end of what is managed (`FrameRuns.RefusalMissesUnalignedRun`,
  `FrameRuns.RefusalMissesRunNearEnd`).
- `frame.rs:120-128` frees whatever frames it is given. A late call keeps live and reserved frames
  apart from free ones exactly when it is given none of them (`FrameRuns.LateAddKeepsApartExactly`).
- `paging.rs:143-151` wants an intermediate entry to carry what any leaf below it might need. It is given
  USER only if the page it was linked for has it, and is not widened later: a page mapped for users is
  open to them exactly when no link already on its path lacked USER
  (`PagingRights.MappedPageIsOpenExactly`, `PagingRights.KernelTablesCloseNeighbour`).
- `paging.rs:424-457` leaves empty tables behind, which keep a larger page from being mapped there
  (`PagingTheorems.MapPageDecides`, `PagingTheorems.LeftoverTableBlocksLargePage`).
- `layout.rs:362-380` has room for 64 doomed snapshots; with more in excess a second pass finds more
  (`PruningTheorems.SecondPassFindsNothingExactly`).
- `vault.rs:359-379` counts pages as swept and seals none again; a page that nobody has sealed again
  is lost at the second rotation (`VaultRuns.SecondRotationLosesPage`).
- `vault.rs:164-167` promises nonces without any risk of collision. Sealing a page again in the same epoch uses
  key and nonce again (`VaultRuns.NonceReusedExactly`, `VaultRuns.ResealingReusesNonce`).
- `vault.rs:345-349` saturates the end of a range so that no overflow passes for a range that is owned. One
  does, exactly when the arena ends at 2^64 - 1 (`VaultRuns.OwnsExactly`, `VaultRuns.OverflowCanBeHidden`).
- `pe.rs:313-316` keeps sections from overlapping the headers, but not from sharing their last aligned
  block (`PeTheorems.FirstBlockIsFreeOfHeadersExactly`, `PeTheorems.SectionMayShareBlockWithHeaders`).
- `pe.rs:213-216` answers a 32-bit optional header under the right machine with an error that names the
  right machine (`PeTheorems.WrongMachineExactly`).
- `context.rs:169-179` asks for `rsp` to be 8 off a multiple of 16 at the `call`. That is what is
  proved; it is not the rule of section 3.2.2 of the System V AMD64 ABI, which wants `rsp` to be a
  multiple of 16 at the `call`.

## Model

| member | source | states |
|---|---|---|
| Addr.SignExtendValue | kernel/spectre-kernel/src/arch/addr.rs:156-159 | the shift round trip keeps the translated bits and copies the sign bit into all others |
| Addr.CanonicalIsTwoHalves | kernel/spectre-kernel/src/arch/addr.rs:144-148 | canonical addresses are exactly the lower and the upper half, for both modes |
| Addr.KernelHalfIsUpperHalf | kernel/spectre-kernel/src/arch/addr.rs:214-216 | of canonical addresses, exactly the upper half is the kernel's |
| Addr.SignExtensionIsCanonical | kernel/spectre-kernel/src/arch/addr.rs:156-159 | sign extension always gives a canonical address and leaves canonical ones alone |
| Addr.SamePageIsSamePrefix | kernel/spectre-kernel/src/arch/addr.rs:200-206 | two canonical addresses share the table indices down to a level exactly when they lie in the same span of that level |
| Addr.PageStaysCanonical | kernel/spectre-kernel/src/arch/addr.rs:144-148 | every byte of an aligned page at a canonical address is canonical and in the same page |
| Paging.EntryWordRoundTrips | kernel/spectre-kernel/src/arch/paging.rs:169-188 | packing frame and flags into one word loses neither |
| Paging.KnownFlagsStayKnown | kernel/spectre-kernel/src/arch/paging.rs:411-416 | the flags that are written are among those the word has room for, when the flags asked for are |
| PagingMachine.TableAccess.WriteEntry | kernel/spectre-kernel/src/arch/paging.rs:294-299 | writes one cell of an existing table, and nothing when there is no such cell |
| PagingMachine.TableAccess.LinkNewTable | kernel/spectre-kernel/src/arch/paging.rs:395-398 | takes one frame, zeroes it and links it; without frames nothing changes |
| PagingMachine.Translate | kernel/spectre-kernel/src/arch/paging.rs:306-349 | the loop computes the recursive walk and the byte's physical address |
| PagingMachine.MapPage | kernel/spectre-kernel/src/arch/paging.rs:358-417 | the loop, with every write in place, has the effect and the answer of the recursive descent |
| PagingMachine.UnmapPage | kernel/spectre-kernel/src/arch/paging.rs:424-457 | the loop clears exactly the cell the walk ends at and returns its frame and size |
| PagingTree.LinkKeepsTree | kernel/spectre-kernel/src/arch/paging.rs:395-398 | linking a fresh table keeps the tables a tree |
| PagingTree.PlainWriteKeepsTree | kernel/spectre-kernel/src/arch/paging.rs:416-417 | writing a leaf, or clearing one, keeps the tables a tree |
| PagingTheorems.LinkKeepsWalk | kernel/spectre-kernel/src/arch/paging.rs:395-398 | linking an empty table changes the outcome of no walk |
| PagingTheorems.MapFromCorrect | kernel/spectre-kernel/src/arch/paging.rs:381-417 | from any table on the path: success maps exactly the paths through the page, failure at any depth changes no walk |
| PagingTheorems.MapPageCorrect | kernel/spectre-kernel/src/arch/paging.rs:358-417 | success: the page was wholly unmapped, now every byte translates to its frame, and no other canonical address changes; failure, also for want of frames: no translation changes |
| PagingTheorems.MappedByteAtOffset | kernel/spectre-kernel/src/arch/paging.rs:306-417 | after success the byte at offset o translates to frame + o, for every offset, size and mode |
| PagingTheorems.WalkIsSound | kernel/spectre-kernel/src/arch/paging.rs:306-349 | in a tree a walk ends at a sound leaf on its own path or finds nothing; it never reports corruption |
| PagingTheorems.WalkReportsHugeExactly | kernel/spectre-kernel/src/arch/paging.rs:306-349 | in whatever tables: corruption is reported, with its level, exactly when the walk comes upon a present entry of level 4 or 5 with the page-size bit |
| PagingTheorems.MapReportsHuge | kernel/spectre-kernel/src/arch/paging.rs:381-391 | map_page then reports the same and has changed nothing |
| PagingTheorems.UnmapPageCorrect | kernel/spectre-kernel/src/arch/paging.rs:424-457 | succeeds exactly where translation does, returns that frame and size, unmaps exactly that page; otherwise nothing changes |
| PagingTheorems.MapThenUnmapRestores | kernel/spectre-kernel/src/arch/paging.rs:358-457 | mapping a page and unmapping any byte of it returns frame and size and restores the whole translation |
| PagingTheorems.MapFromDecides | kernel/spectre-kernel/src/arch/paging.rs:381-417 | from any table on the path: AlreadyMapped exactly when a page or a table is in the way, OutOfFrames exactly when otherwise fewer frames are left than tables are missing |
| PagingTheorems.ValidateExactly | kernel/spectre-kernel/src/arch/paging.rs:122-140 | flags are refused exactly when bit 1 asks to write and bit 63 not to forbid execution, or else when bit 2 asks for users in the upper half of the address space |
| PagingTheorems.MapPageDecides | kernel/spectre-kernel/src/arch/paging.rs:358-417 | the whole answer of map_page: a page to write and to execute, a page for users at 2^63 or above, addresses off a multiple of 4096, 2 MiB or 1 GiB, a page or a table in the way, too few frames for the missing tables, and success exactly otherwise |
| PagingTheorems.MappedFlagsExactly | kernel/spectre-kernel/src/arch/paging.rs:306-417 | for any byte of a page just mapped translation gives back every flag asked for, besides them bit 0, and bit 7 for the larger sizes, and no other |
| PagingTheorems.LeftoverTableBlocksLargePage | kernel/spectre-kernel/src/arch/paging.rs:381-457 | a small page mapped and unmapped keeps the large page around it from being mapped |
| PagingRights.RightsFollowWalk | kernel/spectre-kernel/src/arch/paging.rs:143-159 | gathered down any part of a walk, the rights to write and execute are those of the leaf, and users need the leaf and every link |
| PagingRights.RightsExactly | kernel/spectre-kernel/src/arch/paging.rs:122-159 | in every tree all three effective rights, exactly; nothing is effectively writable and executable, and no leaf in the kernel half carries USER |
| PagingRights.MapFromAdds | kernel/spectre-kernel/src/arch/paging.rs:381-417 | a call changes no present entry, takes one frame for each missing table, and its new links carry USER exactly as the page asks |
| PagingRights.MappedPageIsOpenExactly | kernel/spectre-kernel/src/arch/paging.rs:143-159 | every byte of a page just mapped has the rights asked for, and is open to users exactly when no link already on its path lacked USER |
| PagingRights.MappingKeepsOtherRights | kernel/spectre-kernel/src/arch/paging.rs:358-417 | no call, failed or not, changes the rights of what was mapped |
| PagingRights.KernelTablesCloseNeighbour | kernel/spectre-kernel/src/arch/paging.rs:374-399 | two successful calls on an empty space after which a page mapped for users is closed to them |
| PagingRuns.StepRefines | kernel/spectre-kernel/src/arch/paging.rs:358-457 | one operation, or new frames for tables, keeps the tree and the agreement with the flat map |
| PagingRuns.RunRefinesFlatMap | kernel/spectre-kernel/src/arch/paging.rs:306-457 | after any run from an empty space, however frames for tables ran out and came back on the way, the tables are a tree and every canonical address translates as the last event covering its page says |
| PagingRuns.RetrySucceedsExactly | kernel/spectre-kernel/src/arch/paging.rs:381-417 | a call that ran out of frames succeeds when made again, over the tables it left linked, exactly when there are then frames for the tables still missing |
| PagingRuns.UnmappingKeepsOtherRights | kernel/spectre-kernel/src/arch/paging.rs:424-457 | no call, failed or not, changes the rights of an address outside the page it removes |
| PagingRuns.RightsLastUntilUnmapped | kernel/spectre-kernel/src/arch/paging.rs:358-457 | over any run from any tree the rights of a mapped page stay what they are until a call unmaps it |
| Frames.FrameBit | kernel/spectre-kernel/src/arch/frame.rs:149-163 | a managed frame is free exactly when its bit is clear; no more frames are free than managed |
| Frames.FirstFreeInWord | kernel/spectre-kernel/src/arch/frame.rs:200-208 | the lowest clear bit of a word that is not full is a managed free frame and the first from where the scan began |
| Frames.MaskedWord | kernel/spectre-kernel/src/arch/frame.rs:284-297 | the masked word is zero exactly when the frames are all free; otherwise its lowest bit is the first used one |
| Bits.LowestBitInRange | kernel/spectre-kernel/src/arch/frame.rs:284-297 | the mask selects the range of bits asked for, and trailing zeros find the lowest one set in it |
| Bits.LowestClearBit | kernel/spectre-kernel/src/arch/frame.rs:204 | trailing zeros of the complement find the lowest clear bit |
| FrameMachine.FrameAllocator.constructor | kernel/spectre-kernel/src/arch/frame.rs:107-117 | everything starts out used |
| FrameMachine.FrameAllocator.IndexOf | kernel/spectre-kernel/src/arch/frame.rs:149-158 | word and bit of exactly the managed frames |
| FrameMachine.FrameAllocator.IsUsed | kernel/spectre-kernel/src/arch/frame.rs:160-163 | answers for exactly the managed frames, true exactly when the frame is not free |
| FrameMachine.FrameAllocator.SetUsed | kernel/spectre-kernel/src/arch/frame.rs:165-173 | takes one managed frame out of the free set, with the counter kept exact |
| FrameMachine.FrameAllocator.SetFree | kernel/spectre-kernel/src/arch/frame.rs:175-183 | puts one managed frame into the free set, with the counter kept exact |
| FrameMachine.FrameAllocator.AddRegion | kernel/spectre-kernel/src/arch/frame.rs:120-128 | frees exactly the managed frames all of whose bytes lie in the region, and counts them; the hint stays |
| FrameMachine.FrameAllocator.ReserveRegion | kernel/spectre-kernel/src/arch/frame.rs:131-147 | withholds exactly the managed frames that share a byte with the region, or that a region of no bytes points into, and counts them |
| FrameMachine.FrameAllocator.Alloc | kernel/spectre-kernel/src/arch/frame.rs:186-221 | fails exactly when nothing is free; else takes the first free frame from the hint's word on, or else the first of all |
| FrameMachine.FrameAllocator.FirstUsedIn | kernel/spectre-kernel/src/arch/frame.rs:270-302 | skipping and masking words agrees with a search frame by frame |
| FrameMachine.FrameAllocator.AllocContiguous | kernel/spectre-kernel/src/arch/frame.rs:230-267 | takes exactly the lowest aligned free run; refuses exactly when none exists, and then reports the longest run of free frames from any place where the request could lie |
| Frames.InsideIsRange | kernel/spectre-kernel/src/arch/frame.rs:63-67 | the rounded range is of exactly the frames that lie wholly in the region |
| Frames.WithheldIsRange | kernel/spectre-kernel/src/arch/frame.rs:137-138 | the range rounded outward is of exactly the frames the region touches |
| Frames.ReportsLongestRunExactly | kernel/spectre-kernel/src/arch/frame.rs:243-266 | a refusal reports the longest free run exactly when one that long begins at a candidate, and never more |
| FrameRuns.RefusalMissesUnalignedRun | kernel/spectre-kernel/src/arch/frame.rs:243-266 | from a new allocator: a refusal that reports 0 while three frames in a row are free, off the alignment |
| FrameRuns.RefusalMissesRunNearEnd | kernel/spectre-kernel/src/arch/frame.rs:243-266 | from a new allocator: the same at alignment 1, near the end of what is managed |
| FrameMachine.FrameAllocator.Free | kernel/spectre-kernel/src/arch/frame.rs:310-324 | frees exactly a managed used frame; double frees and foreign frames change nothing |
| FrameMachine.FrameAllocator.FreeContiguous | kernel/spectre-kernel/src/arch/frame.rs:326-343 | all or nothing; the first bad frame is named |
| FrameMachine.FrameAllocator.LargestFreeRun | kernel/spectre-kernel/src/arch/frame.rs:359-376 | the length of the longest run of free managed frames |
| FrameRuns.NextFitIsFirstFitExactly | kernel/spectre-kernel/src/arch/frame.rs:186-221 | alloc is first-fit exactly when nothing is free below the word it starts at, or nothing from there on |
| FrameRuns.AddRegionDoesNotRewindHint | kernel/spectre-kernel/src/arch/frame.rs:120-128 | a run from a new allocator in which add_region below the hint makes alloc hand out a later frame |
| FrameRuns.StepKeepsHint | kernel/spectre-kernel/src/arch/frame.rs:186-343 | once regions are added, no call leaves a free frame below the hint, so alloc is first-fit |
| FrameRuns.ReservationCoversBytes | kernel/spectre-kernel/src/arch/frame.rs:131-147 | after a reservation no frame that holds one of its bytes is free |
| FrameRuns.EmptyReservationExactly | kernel/spectre-kernel/src/arch/frame.rs:131-147 | a reservation of no bytes withholds a frame exactly when it does not start on a frame boundary |
| FrameRuns.StepKeepsLedger | kernel/spectre-kernel/src/arch/frame.rs:107-343 | free, live and reserved frames stay apart; what is handed out was free |
| FrameRuns.LateAddKeepsApartExactly | kernel/spectre-kernel/src/arch/frame.rs:120-128 | at any time, add_region keeps them apart exactly when no managed frame inside the region is live or touched by a reservation |
| FrameRuns.RunHandsOutSoundly | kernel/spectre-kernel/src/arch/frame.rs:107-343 | over any run in boot order that frees only live frames: no handed-out frame is live already or touches a reserved byte, single frames come lowest first and run out exactly when none is free |
| FrameRuns.HandsOutAddedMemory | kernel/spectre-kernel/src/arch/frame.rs:107-343 | over any such run every byte of memory handed out, from its address on, lies in a region that was added before |
| FrameRuns.AllocThenFree | kernel/spectre-kernel/src/arch/frame.rs:186-335 | a frame just handed out can be given back, which restores what was free, and not a second time |
| FrameRuns.AllocContiguousThenFree | kernel/spectre-kernel/src/arch/frame.rs:223-343 | the same for a run of frames |
| FrameRuns.RunFreesExactly | kernel/spectre-kernel/src/arch/frame.rs:107-343 | over any such run a frame can be given back exactly when its caller holds it; a free one and one that is not managed are told apart and nothing changes |
| Contexts.Cpu.Push | kernel/spectre-kernel/src/arch/context.S:44-49 | one push |
| Contexts.Cpu.Pop | kernel/spectre-kernel/src/arch/context.S:76-81 | one pop |
| Contexts.Cpu.ContextSwitch | kernel/spectre-kernel/src/arch/context.S:40-88 | the whole switch: parked memory, address space, registers read back, return address |
| Contexts.Cpu.ThreadTrampoline | kernel/spectre-kernel/src/arch/context.S:106-114 | interrupts on, argument in rdi, entry point called |
| Contexts.Cpu.BootstrapContext | kernel/spectre-kernel/src/arch/context.rs:111-167 | the three refusals in order, with nothing written; else the forged frame below the top and nothing else |
| ContextRuns.ParkedSuspends | kernel/spectre-kernel/src/arch/context.S:40-53 | what the switch stores makes the caller a suspended thread with its own stack intact |
| ContextRuns.SuspendedResumes | kernel/spectre-kernel/src/arch/context.S:73-88 | switching to a suspended thread gives back everything it had |
| ContextRuns.StaysSuspended | kernel/spectre-kernel/src/arch/context.S:40-88 | no step of another thread disturbs a suspended one |
| ContextRuns.ContextNamesAddressSpace | kernel/spectre-kernel/src/arch/context.S:63-67 | over any run the running thread's context names the address space in force, so skipping the write of cr3 is right |
| ContextRuns.ResumeIsTransparent | kernel/spectre-kernel/src/arch/context.S:40-88 | over any run a thread resumes with the rbp, rbx, r12 to r15, stack pointer, return address, cr3 and stack contents it left with, also when it switches to itself |
| ContextRuns.SpawnedIsSuspended | kernel/spectre-kernel/src/arch/context.rs:111-167 | a forged frame is the frame of a suspended thread: the switch needs no second case |
| ContextRuns.FirstResumeEntersThread | kernel/spectre-kernel/src/arch/context.rs:111-167 | the first resume lands at the trampoline with entry and argument in r12 and r13 at the zero terminator, and the trampoline enters the thread with its argument, interrupts on |
| ContextRuns.EntryAlignment | kernel/spectre-kernel/src/arch/context.rs:176-179 | the test says exactly that rsp is 8 off a multiple of 16 when the trampoline calls |
| ContextRuns.BootstrapsExactly | kernel/spectre-kernel/src/arch/context.rs:111-167 | a thread can be made exactly on a top that is a multiple of 16, with an entry point and 16 KiB of stack; each refusal says which is missing |
| ContextRuns.BootstrapAligns | kernel/spectre-kernel/src/arch/context.rs:111-179 | every bootstrapped context passes the test and parks within its stack |
| Heuristic.Behaviour.Weight | userland/spectreshield/src/heuristic.rs:85-105 | weights lie between 5 and 45, so no single one reaches the suspend threshold |
| Heuristic.DeclaredRole.Discount | userland/spectreshield/src/heuristic.rs:193-214 | at most the whole weight, and nothing of what no role discounts |
| Heuristic.DeclaredRole.Discounted | userland/spectreshield/src/heuristic.rs:278-280 | no more than the weight is left |
| Heuristic.ProcessProfile.Observe | userland/spectreshield/src/heuristic.rs:275-294 | decay, discount, ring, combinations and verdict, as one step on the profile's value |
| Heuristic.ProcessProfile.Decay | userland/spectreshield/src/heuristic.rs:297-323 | halving and interpolation; credits go with the score |
| Heuristic.ProcessProfile.CheckCombinations | userland/spectreshield/src/heuristic.rs:325-346 | credits exactly the combinations that are present and not credited, and adds their bonuses |
| HeuristicTheorems.DecayIsAtMostLinear | userland/spectreshield/src/heuristic.rs:306-314 | one integer decay takes at most elapsed / 600000 of the score |
| HeuristicTheorems.StandingShrinks | userland/spectreshield/src/heuristic.rs:297-323 | decaying in steps loses no more than the straight line from each observation |
| HeuristicTheorems.ObserveCovers | userland/spectreshield/src/heuristic.rs:275-294 | every observation keeps the score above what the recent history still stands for |
| HeuristicTheorems.CreditScores | userland/spectreshield/src/heuristic.rs:325-346 | when the ransomware combination is credited the score is at least 70 and 85 percent of the four discounted weights |
| HeuristicTheorems.DecisiveRolesSuspend | userland/spectreshield/src/heuristic.rs:275-355 | in any run and order, with any noise, that credit suspends for no role, backup agents and anti-cheat |
| HeuristicTheorems.RansomwareAlwaysSuspendsExactly | userland/spectreshield/src/heuristic.rs:121-140 | it always suspends for exactly those roles |
| HeuristicTheorems.UndecisiveRoles | userland/spectreshield/src/heuristic.rs:203-206 | runs that end at 109 for a compiler and at 106 for an encryption tool |
| HeuristicTheorems.BackupAgentBoundIsTight | userland/spectreshield/src/heuristic.rs:132-139 | a backup agent can end at exactly 110 |
| HeuristicTheorems.NoDoubleCredit | userland/spectreshield/src/heuristic.rs:257-260 | while the score has not decayed to zero no combination is credited twice |
| HeuristicDecay.HalfLives | userland/spectreshield/src/heuristic.rs:297-316 | after k whole half-lives the score is score / 2^k, rounded down, and 0 from 32 on |
| HeuristicDecay.HalfLifeHalves | userland/spectreshield/src/heuristic.rs:297-316 | for every elapsed time: one half-life more is the same as half the score, rounded down |
| HeuristicDecay.StraightLine | userland/spectreshield/src/heuristic.rs:311-314 | within a half-life the score is on the straight line to its half, rounded up |
| HeuristicDecay.NeverRises | userland/spectreshield/src/heuristic.rs:297-316 | a decayed score never rises with time |
| HeuristicDecay.StallsExactly | userland/spectreshield/src/heuristic.rs:311-314 | a decay takes nothing exactly when the score is 0, or comes so soon that score times elapsed is below 600000 |
| HeuristicDecay.AboveTheCurve | userland/spectreshield/src/heuristic.rs:297-316 | the decayed score is never a whole point below the exact curve |
| HeuristicDecay.StillCounts | userland/spectreshield/src/heuristic.rs:275-323 | over any run, in whatever steps the score decayed: k half-lives later at least score / 2^k is left |
| HeuristicDecay.ObservationStillCounts | userland/spectreshield/src/heuristic.rs:275-323 | so of an observation at least its weight / 2^k still counts k half-lives later |
| HeuristicDecay.LoneObservation | userland/spectreshield/src/heuristic.rs:275-323 | and exactly that when nothing else was observed |
| HeuristicDecay.BusyProcessIsSuspended | userland/spectreshield/src/heuristic.rs:239-243 | any process without a role that is observed every five seconds is suspended from the 22nd observation on, whatever it does |
| HeuristicScores.CreditsExactly | userland/spectreshield/src/heuristic.rs:121-165 | a combination is credited exactly when all it needs was seen within its window; credits last exactly until the score has decayed to nothing; each adds its bonus once |
| HeuristicScores.BurstScoresExactly | userland/spectreshield/src/heuristic.rs:275-346 | a burst of behaviours scores what the role leaves of their weights, and once the bonus of every combination they contain |
| HeuristicScores.SingleBehaviourVerdict | userland/spectreshield/src/heuristic.rs:85-105 | one behaviour alone is worth a Watch at most, and that for exactly three of them |
| HeuristicScores.CombinationVerdict | userland/spectreshield/src/heuristic.rs:121-165 | of the four combinations alone two suspend, at 127 and 130, and two end in an alert, at 87 and 98 |
| HeuristicScores.WorkStaysClean | userland/spectreshield/src/heuristic.rs:185-214 | over any run a process that does only the work of its declared role stays clean |
| HeuristicScores.HistoryIsLatest | userland/spectreshield/src/heuristic.rs:282-288 | the history is the latest 128 observations of the run |
| RtAdmission.StepKeepsCount | kernel/spectre-kernel/src/sched.rs:174-214 | every atomic step keeps the counter equal to the admitted sum, at most 700000; subtraction never wraps |
| RtAdmission.RunKeepsCount | kernel/spectre-kernel/src/sched.rs:174-214 | the same in every interleaving of loads, failing and succeeding exchanges and releases |
| RtAdmission.RefusalIsJustified | kernel/spectre-kernel/src/sched.rs:184-195 | a refused caller had no room at some moment of its call; nobody's half-done admission is to blame |
| RtAdmission.PpmIsTrueExactly | kernel/spectre-kernel/src/sched.rs:182 | the measured share is never above the true one, and equal exactly when neither saturation nor truncation bites |
| RtAdmission.MeasuredExactly | kernel/spectre-kernel/src/sched.rs:182 | the real share is within one part per million of the measured one exactly then |
| RtAdmission.ProperDemandIsMeasurable | kernel/spectre-kernel/src/sched.rs:174-182 | budgets up to their period are measured right as long as the product fits 64 bits |
| RtAdmission.HugeDemandCountsAsNothing | kernel/spectre-kernel/src/sched.rs:182 | a demand of 4295 processors that is measured as zero |
| RtAdmission.RunBoundsUtilisation | kernel/spectre-kernel/src/sched.rs:168-214 | at every moment of every run the real sum of budget over period is below 0.7 and one part per million for each thread |
| RtAdmission.Utilisations.AdmitRealtime | kernel/spectre-kernel/src/sched.rs:174-206 | undisturbed, with any number of spurious failures: admits exactly what fits and reports the room left otherwise |
| RtAdmission.Utilisations.ReleaseRealtime | kernel/spectre-kernel/src/sched.rs:208-214 | subtracts the measured share, with 32-bit wrap-around |
| RtAdmission.UndisturbedCallIsSteps | kernel/spectre-kernel/src/sched.rs:174-206 | an undisturbed call is a run of the atomic steps with the same outcome |
| RtAdmission.CounterMovesByNetEffect | kernel/spectre-kernel/src/sched.rs:174-214 | over any stretch of any run the counter moves by what is admitted less what is released |
| RtAdmission.ReleaseUndoesAdmit | kernel/spectre-kernel/src/sched.rs:174-214 | an admission and its release, with any other callers between: the counter stands where those others alone would have moved it |
| RunQueues.PartitionPoint | kernel/spectre-kernel/src/sched.rs:123 | everything before is due no later, what follows is due later |
| RunQueues.InteractiveQueue.Enqueue | kernel/spectre-kernel/src/sched.rs:121-126 | behind everything due no later; refused, with no change, exactly when 64 wait |
| RunQueues.InteractiveQueue.PickNext | kernel/spectre-kernel/src/sched.rs:129-136 | takes the head |
| RunQueues.InsertKeepsSorted | kernel/spectre-kernel/src/sched.rs:121-126 | insertion keeps the queue sorted and adds exactly the new entry |
| RunQueues.HeadIsFirstMin | kernel/spectre-kernel/src/sched.rs:121-136 | the head of the sorted queue is the first arrived of the earliest deadlines, and popping it is taking that arrival out |
| RunQueues.RunRefinesArrivals | kernel/spectre-kernel/src/sched.rs:121-136 | over any run the answers are earliest deadline first, then first come first served, and the queue stays sorted |
| RunQueues.BackgroundQueue.Enqueue | kernel/spectre-kernel/src/sched.rs:307-312 | appends, refused exactly when 256 wait |
| RunQueues.BackgroundQueue.EarliestEligible | kernel/spectre-kernel/src/sched.rs:296-303 | the first of the earliest deadlines with non-negative lag, or none when there is no such entry |
| RunQueues.BackgroundQueue.PickEligible | kernel/spectre-kernel/src/sched.rs:296-305 | takes exactly that entry out |
| RunQueues.EarliestEligibleIsUnique | kernel/spectre-kernel/src/sched.rs:296-305 | the choice is determined |
| RunQueues.CpuContext.PickNext | kernel/spectre-kernel/src/sched.rs:254-274 | class by class, with the isolated branch as it is, also when the two interactive queues are the same |
| RunQueues.PickConservesExactly | kernel/spectre-kernel/src/sched.rs:254-274 | no thread is lost or made up, exactly unless an isolated processor meets a foreign thread, which is dropped |
| RunQueues.SharedPickConserves | kernel/spectre-kernel/src/sched.rs:254-274 | where the two interactive queues are the same no thread is ever lost |
| RunQueues.IdlesExactlyWhenNothingMayRun | kernel/spectre-kernel/src/sched.rs:254-274 | a processor that is not isolated idles exactly when no thread may run |
| RunQueues.PicksByPriority | kernel/spectre-kernel/src/sched.rs:252-274 | on a processor that is not isolated no thread that may run has a better class than the one picked, and none of its class an earlier deadline |
| RunQueues.IsolatedPicksOwnOnly | kernel/spectre-kernel/src/sched.rs:255-268 | an isolated processor picks the earliest real-time thread if there is one, and else nothing but an interactive thread of its owner |
| RunQueues.SharedPicksByPriority | kernel/spectre-kernel/src/sched.rs:254-274 | the same where the two interactive queues are one |
| RunQueues.RunPicksByPriority | kernel/spectre-kernel/src/sched.rs:121-312 | over any run every such decision is for the best that may run then |
| RunQueues.RunConserves | kernel/spectre-kernel/src/sched.rs:121-312 | over any run of calls on the three queues: as often as a thread was accepted it was returned, waits, or was dropped |
| RunQueues.DroppedExactly | kernel/spectre-kernel/src/sched.rs:258-268 | over any run a thread was dropped exactly if an isolated processor came upon it when it was foreign |
| Ports.StepRefinesFifo | kernel/spectre-kernel/src/ipc.rs:263-309 | each atomic access keeps the invariant and is one step of a bounded first-in first-out queue |
| Ports.RunIsFifo | kernel/spectre-kernel/src/ipc.rs:263-309 | over every interleaving: received is a prefix of accepted, at most 256 apart across wrap-around, every permitted post is accounted for, and so is the drop counter |
| Ports.RunRefinesFifo | kernel/spectre-kernel/src/ipc.rs:263-309 | posts are refused only when the queue is full and reads come back empty only when it is empty, at a moment within the call |
| Ports.DropsAreRefusals | kernel/spectre-kernel/src/ipc.rs:263-288 | over every interleaving exactly as many notes are counted as dropped as the bounded queue refused |
| Ports.GivesUpExactly | kernel/spectre-kernel/src/ipc.rs:295-303 | a read gives up exactly when the queue is empty at the moment it reads the head |
| Ports.NonEmptyReadYieldsNote | kernel/spectre-kernel/src/ipc.rs:295-303 | a read that saw the ring not empty always brings the oldest note not yet received |
| Ports.PostIsSteps | kernel/spectre-kernel/src/ipc.rs:263-288 | an undisturbed post is a run of the atomic steps |
| Ports.ReceiveIsSteps | kernel/spectre-kernel/src/ipc.rs:290-304 | an undisturbed read is a run of the atomic steps |
| Ports.Port.Post | kernel/spectre-kernel/src/ipc.rs:263-288 | denied without SEND; else accepted or refused with the drop counted, and the waiter is woken exactly on acceptance |
| Ports.Port.TryRecv | kernel/spectre-kernel/src/ipc.rs:290-304 | denied without RECEIVE; else the oldest note, taken out of its slot, or none |
| Ports.Port.TakeDropCount | kernel/spectre-kernel/src/ipc.rs:307-309 | reads and clears the counter and nothing else |
| Capabilities.ChainNeverAmplifies | kernel/spectre-kernel/src/cap.rs:110-127 | rights only shrink along any chain of delegations, over the same object |
| Capabilities.ReachableRightsExactly | kernel/spectre-kernel/src/cap.rs:110-127 | delegation reaches exactly the subsets of the rights of a token that may be delegated |
| Capabilities.SearchStops | kernel/spectre-kernel/src/cap.rs:173-190 | with a slot free every probe sequence stops, so insert terminates |
| Capabilities.CapSet.Insert | kernel/spectre-kernel/src/cap.rs:173-190 | refused exactly when full; else the handle, stored at the first hole unless the handle is met first; the length stays the number of occupied slots |
| Capabilities.CapSet.Lookup | kernel/spectre-kernel/src/cap.rs:192-202 | what the probe sequence stops at |
| Capabilities.CapSet.RevokeObject | kernel/spectre-kernel/src/cap.rs:206-216 | clears exactly the slots that name the object and counts them |
| CapabilityRuns.InsertRefinesMap | kernel/spectre-kernel/src/cap.rs:173-190 | an insertion is an insertion into a map that keeps the first token under a handle |
| CapabilityRuns.FoundIsMapLookup | kernel/spectre-kernel/src/cap.rs:192-202 | lookup in the table is lookup in that map |
| CapabilityRuns.LookupFindsFirstExactly | kernel/spectre-kernel/src/cap.rs:173-202 | without revocation a token is found exactly when it was the first under its handle and came while there was room |
| CapabilityRuns.FoundExactly | kernel/spectre-kernel/src/cap.rs:192-202 | in any table a token is found exactly when it lies somewhere its probe path reaches |
| CapabilityRuns.ReachableAfterRevokeExactly | kernel/spectre-kernel/src/cap.rs:206-216 | a survivor of a revocation can be reached exactly when it could before and no token on its way was revoked |
| CapabilityRuns.ReachableAfterInsertExactly | kernel/spectre-kernel/src/cap.rs:173-190 | after an insertion a token can be reached exactly when all that blocked its way was the hole just filled, under another handle |
| CapabilityRuns.RunReachesExactly | kernel/spectre-kernel/src/cap.rs:173-216 | over every run of insertions and revocations, event by event, exactly which tokens in the table can be reached and found |
| CapabilityRuns.LookupAfterRevokeExactly | kernel/spectre-kernel/src/cap.rs:192-216 | after any run, a token that could be found is found after one more revocation exactly when no token on its way is revoked |
| CapabilityRuns.RevokeRefinesMapExactly | kernel/spectre-kernel/src/cap.rs:206-216 | a revocation is the removal of its tokens from the map exactly when no survivor has a revoked token on its way |
| CapabilityRuns.StaysAMapExactly | kernel/spectre-kernel/src/cap.rs:173-216 | over any run the table is a map with the revoked tokens removed, at every moment, exactly when every revocation was of that kind |
| CapabilityRuns.RevocationCanHideOthers | kernel/spectre-kernel/src/cap.rs:206-216 | a token that stays in the table and is not found |
| CapabilityRuns.LookupIsSound | kernel/spectre-kernel/src/cap.rs:173-216 | over any run what is found has the handle asked for, was inserted, and was not revoked since |
| BlockMap.LocateFinds | fs/spectrefs/src/layout.rs:284-327 | every block below the limit has a place with all indices below the fan-out, and is the block of that place |
| BlockMap.BlockAtFinds | fs/spectrefs/src/layout.rs:284-327 | every such place is the place of its block: the inverse the other way round |
| BlockMap.OutOfRangeExactly | fs/spectrefs/src/layout.rs:316-327 | out of range for exactly the blocks past the limit, at any fan-out |
| BlockMap.LocateKeepsOrder | fs/spectrefs/src/layout.rs:284-327 | earlier blocks lie at earlier places, and only they do |
| BlockMap.SourceFanOut | fs/spectrefs/src/layout.rs:244-256 | at fan-out 256 files reach past 16 TiB, and out of range agrees with the maximum file size |
| Uberblocks.SelectNewestValid | fs/spectrefs/src/layout.rs:153-165 | the answer is in a slot, with the right magic number, a version up to 1 and the sum of its other fields as its checksum; nothing in a slot that has these is newer; none exactly when nothing has |
| Uberblocks.CompleteKeeps | fs/spectrefs/src/layout.rs:176-179 | a completed commit keeps the last commits on disk |
| Uberblocks.TornKeeps | fs/spectrefs/src/layout.rs:153-179 | a torn commit that leaves what was there, nothing, or fields with a wrong checksum, and a mount after it, keep them too and go back to the last completed commit |
| Uberblocks.MountSelectsLastCompleted | fs/spectrefs/src/layout.rs:153-179 | after any sequence of completed and torn commits the mount selects the last completed one |
| Uberblocks.TwoSlotsSufficeExactly | fs/spectrefs/src/layout.rs:44-48 | a torn commit never leaves the volume unmountable exactly with two slots or more |
| Pruning.PrunePlan | fs/spectrefs/src/layout.rs:362-380 | class by class the oldest in excess, cut at 64 |
| PruningTheorems.PlanIsSound | fs/spectrefs/src/layout.rs:344-380 | only existing snapshots, never manual ones, at most 64 |
| PruningTheorems.EachClassLosesItsExcess | fs/spectrefs/src/layout.rs:371-376 | with at most 64 in excess each class loses exactly its excess |
| PruningTheorems.SurvivorsAreNewer | fs/spectrefs/src/layout.rs:371-376 | no survivor is older than a doomed snapshot of its class, cut or not |
| PruningTheorems.SurvivorsPerClass | fs/spectrefs/src/layout.rs:362-380 | with distinct names, carrying out a plan removes from each class exactly what is planned |
| PruningTheorems.SecondPassFindsNothingExactly | fs/spectrefs/src/layout.rs:362-380 | pruning again dooms nothing exactly when the total excess was at most 64 |
| PruningTheorems.OnePassMeetsScheduleExactly | fs/spectrefs/src/layout.rs:344-380 | one pass takes what is beyond 24 hourly, 7 daily, 4 weekly and 12 monthly snapshots, 64 at most: it meets the schedule exactly when no more is beyond it, and then takes from each class just that; manual ones are kept |
| Vault.NonceInjective | kernel/spectre-kernel/src/vault.rs:170-177 | no nonce serves two owners, pages, epochs or hardware keys |
| Vault.PageAadInjective | kernel/spectre-kernel/src/vault.rs:239-246 | the associated data tells owner, page and epoch apart |
| Vault.Arena.Rotate | kernel/spectre-kernel/src/vault.rs:120-132 | new key, last key kept, the one before dropped, everything stale |
| Vault.Arena.SealPage | kernel/spectre-kernel/src/vault.rs:182-206 | seals in place under the current key; a foreign page is refused untouched |
| Vault.Arena.OpenPage | kernel/spectre-kernel/src/vault.rs:208-237 | opens in place with the key of the epoch it was sealed in, or leaves the page as it is |
| Vault.Arena.SweepStep | kernel/spectre-kernel/src/vault.rs:359-379 | counts down by at most 512, and by nothing while deferred |
| VaultRuns.EpochsTellKeys | kernel/spectre-kernel/src/vault.rs:120-132 | over any run keys are the same exactly within an epoch, and the previous key is that of the epoch before |
| VaultRuns.SealedPageOpensExactly | kernel/spectre-kernel/src/vault.rs:182-246 | a sealed page opens exactly at its own index, under its own epoch, while the current epoch is that one or the next, and to its own contents |
| VaultRuns.OpensExactlyWhatWasSealed | kernel/spectre-kernel/src/vault.rs:182-237 | over any run in which no tag is forged: an attempt to open a page gives contents exactly when an earlier call of the run sealed them at this index, in the epoch claimed, with this very page and tag as outcome, and that epoch is the current one or the one before |
| VaultRuns.NonceReusedExactly | kernel/spectre-kernel/src/vault.rs:164-177 | two calls to seal share key and nonce exactly when they seal the same page in the same epoch |
| VaultRuns.ResealingReusesNonce | kernel/spectre-kernel/src/vault.rs:164-177 | a run that seals two contents under one key and nonce |
| VaultRuns.SweepAddsUp | kernel/spectre-kernel/src/vault.rs:359-379 | pages swept since the last rotation and stale pages add up to those resident then |
| VaultRuns.SweepEndsExactly | kernel/spectre-kernel/src/vault.rs:352-379 | n stale pages take exactly n / 512 full steps, rounded up |
| VaultRuns.SweepsLeaveTheRest | kernel/spectre-kernel/src/vault.rs:359-379 | until the next rotation sweeps of any budgets, any of them deferred, with anything sealed and opened between, leave exactly the pages that the budgets, cut at 512 each, do not reach |
| VaultRuns.OwnsExactly | kernel/spectre-kernel/src/vault.rs:345-349 | a range is owned exactly when each of its bytes lies in the arena, or saturation hides an overflow at an arena that ends at 2^64 - 1; and which empty ranges are |
| VaultRuns.OverflowCanBeHidden | kernel/spectre-kernel/src/vault.rs:345-349 | an arena that passes for the owner of a page it does not have |
| Pe.ValidateSection | userland/winbridge/src/pe.rs:289-319 | accepts exactly sections whose raw data lies in the file and whose virtual range lies in the image past the headers |
| Pe.CheckNoOverlap | userland/winbridge/src/pe.rs:327-350 | names the first pair that overlaps, or there is none |
| Pe.ParseHeaders | userland/winbridge/src/pe.rs:165-243 | the headers, or the first thing wrong with them; no read is out of bounds |
| Pe.Parse | userland/winbridge/src/pe.rs:165-287 | on every byte string: the first error in the order of the checks, or the image |
| PeTheorems.AlignmentRounds | userland/winbridge/src/pe.rs:352-358 | the masks round down and up to multiples of the alignment |
| PeTheorems.SectionFlags | userland/winbridge/src/pe.rs:127-141 | the flag tests are tests of bits 29, 30 and 31 |
| PeTheorems.OverlapExactly | userland/winbridge/src/pe.rs:327-350 | two sections overlap exactly when they share an aligned block, or an empty one lies strictly inside the other |
| PeTheorems.SectionsExactly | userland/winbridge/src/pe.rs:246-275 | the table is read exactly when each entry lies in the file and fits |
| PeTheorems.AcceptedExactly | userland/winbridge/src/pe.rs:165-287 | a file is accepted exactly when headers, every section and the pairwise check are good |
| PeTheorems.AcceptedRanges | userland/winbridge/src/pe.rs:289-319 | raw ranges lie in the file, virtual ranges in the image and not below the headers |
| PeTheorems.BlocksHaveOneOwner | userland/winbridge/src/pe.rs:321-350 | in an accepted image the rounded ranges of two sections share no aligned block, and so no block has bytes of two sections |
| PeTheorems.FirstBlockIsFreeOfHeadersExactly | userland/winbridge/src/pe.rs:313-316 | a section of an accepted image keeps clear of the headers' last block exactly when it starts no lower than the headers' size rounded up |
| PeTheorems.SectionMayShareBlockWithHeaders | userland/winbridge/src/pe.rs:313-316 | a whole file that is accepted, with a section that does not |
| PeTheorems.WriteExecuteExactly | userland/winbridge/src/pe.rs:117-141 | the flag says exactly that some section asks for both rights, and no protection grants both |
| PeLayout.ParsesExactly | userland/winbridge/src/pe.rs:165-319 | a file parses to an image exactly when it lays that image out, field after field at their widths in file order, and the image is sound |
| PeLayout.LaidOutIsRead | userland/winbridge/src/pe.rs:165-273 | the offsets of the parser are those that the widths of the fields add up to |
| PeLayout.WriteExecuteInFile | userland/winbridge/src/pe.rs:250-273 | the flag says exactly that the last byte of some entry of the section table has both bit 7 and bit 5 |
| PeTheorems.NotPeExactly | userland/winbridge/src/pe.rs:167-183 | NotPe says exactly that a signature is missing |
| PeTheorems.WrongMachineExactly | userland/winbridge/src/pe.rs:197-216 | exactly when another machine is named or the optional header is not of the 64-bit kind, and it names the machine of the header |
| PeTheorems.TruncatedExactly | userland/winbridge/src/pe.rs:174-254 | exactly when none of these holds, and the headers are not good or the first entry of the section table that is not good leaves the file |
| PeTheorems.BadSectionExactly | userland/winbridge/src/pe.rs:250-268 | that error names the first section that does not fit, and comes exactly then |
| PeTheorems.OverlapErrorExactly | userland/winbridge/src/pe.rs:277 | that error names the first overlapping pair of an otherwise sound file, and comes exactly then |

## Left out

- FrameMachine.FrameAllocator.AllocContiguous: asks for an alignment up to 2^63 and a first candidate whose end fits 64 bits; with others the source stops on an overflow.
- FrameMachine.FrameAllocator.FreeContiguous: asks for an end of the range that fits 64 bits and, with a count of 0, for an address not below the managed range; otherwise the source stops on an overflow.
- Contexts.Cpu.BootstrapContext: asks that a request which passes all checks has its top at 64 or above, as the source stops on an underflow below that.
- Vault.Arena.OpenPage: asks for a claimed epoch and, where a key is found, a page address that fit 64 bits; with others the source stops on an overflow.
- Pruning.PrunePlan: asks for at most 128 snapshots in each class, as the source's vectors do not survive more.
- `frames_spanned`, `fragmentation_percent`, `is_stale`, `should_keep_compression`, `set_class_affinity`, `eevdf_update_lag`: one line of arithmetic each.
- `PageTable` itself (`paging.rs:235-276`): tables are maps from index to entry, reached through `TableAccess`.
- TLB contents, PCID, and hardware memory ordering.
- `Endpoint` call, receive and reply: their payloads and switches live in per-thread kernel modules that are not part of this model.
- `switch_to_donating`, wakeups, timeouts and CPU affinity: they act through modules that are not part of this model.
- The entropy estimate, the frame-time budget, curves and quaternions: floating point, which real numbers would not match.
- `name_str`: decoding UTF-8.
- Token freshness and handle collisions of capabilities: tokens are arbitrary, and what is proved about handles holds for colliding ones too.
- Real cryptography, key erasure and the random number generator: the cipher is ideal and the checksum arbitrary.
- `transfer_pages` and the cross-process fault verdict: they act through modules that are not part of this model.
- The UEFI demonstrator, halt screens, memory-module probing, attestation, shaders, the interrupt and segment tables, the serial port, windows and Game Mode flags: input and output, drawing or a branch or two each.
