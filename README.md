# Minimalist ImGui Base: the hooking engine, modelled in Dafny

The base injects into a game process, finds the graphics backend the game renders with,
and draws an ImGui menu over it. To get there it leans on a small set of hooking primitives:

- Mem: byte patching, NOP filling, jumps, pattern scans, pointer chains, and an inline
  detour (`Hook`) that allocates a trampoline page near its target.
- TinyHook:
  - import-table (IAT), export-table (EAT) and virtual-table (VMT) hooks;
  - hardware-breakpoint (HWBP) and guard-page (VEH) hooks;
  - the shared `Patch` primitive and the `Manager` registry of originals.
- The older `VMTHook`.
- The SafetyHook wrapper's registry of inline, mid-function and VMT hooks.
- The D3D12 descriptor-heap allocator.
- The Steam overlay's pointer-swap hook.
- The keybind list, the bind-key widget, and the start-up helpers that skip blacklisted
  processes and read the graphics API from the window title.

The model follows the source file by file:

- Objects whose fields change are classes with `modifies` frames: the hook classes, the
  registries, the allocator and the keybind list.
- Every state-changing method is proved against a functional step. Its `ensures`
  says the new state and result are exactly what a pure `HookStep`, `UnhookStep`,
  `Check` and so on give on the old state.
- Lemmas prove what the source promises about those steps:
  - hooking then unhooking restores memory and the registry;
  - a second hook on the same target is refused or chains;
  - each error path is taken exactly when the source takes it;
  - jumps land where they are aimed.
- Loops stay loops with invariants: NOP filling, the pattern parser and scanner, the
  near-page search, pointer-chain walks, the import/export searches, the v-table size
  count, restore-all, the breakpoint slot searches and the allocator's free list.

Memory is a map from addresses to bytes (`Machine.Mem`) or to 64-bit words
(`TinyShared.Memory`). Page protections are a map from page to region, and
`VirtualProtect`/`VirtualAlloc` outcomes are inputs. Machine words are `nat`s below 2^64,
with 32- and 64-bit wrap-around written out wherever the source casts or subtracts.

## Model

| member | source | states |
|---|---|---|
| MemPrimitives.AlignedNopsDecode | include/Mem/mem.cpp:5-29 | the bytes written by FillWithAlignedNOPs decode as a whole sequence of the recommended 1- to 9-byte NOP forms |
| MemPrimitives.NopFormsPrefixFree | include/Mem/mem.cpp:8-18 | no shorter NOP form is a prefix of a longer one, so the decoding is unique |
| MemPrimitives.DecodeNopForm | include/Mem/mem.cpp:8-18 | a NOP form of length len followed by anything decodes as exactly len bytes |
| MemPrimitives.FillStep | include/Mem/mem.cpp:23-28 | one pass of the inner loop writes the (9-k)-byte form at the current offset, and that agrees with the aligned-NOP specification |
| MemPrimitives.FillDone | include/Mem/mem.cpp:23-28 | once the form length reaches zero, the whole length has been filled |
| MemPrimitives.FillWithAlignedNops | include/Mem/mem.cpp:5-29 | the buffer range [start, start+n) becomes AlignedNops(n) and nothing else in the buffer changes |
| MemPrimitives.GetBitsHex | include/Mem/mem.cpp:166-168 | getBits maps each hex digit (either case) to its value |
| MemPrimitives.GetByteHex | include/Mem/mem.cpp:166-168 | getByte of two hex digits is 16*high + low |
| MemPrimitives.ParsePattern | include/Mem/mem.cpp:178-197 | the parse loop produces the byte and mask vectors of the pattern's tokens ("?"/"??" wildcards, hex pairs) |
| MemPrimitives.ReadToken | include/Mem/mem.cpp:178-197 | one token step reads a wildcard or a hex pair and skips the following space |
| MemPrimitives.FirstHit | include/Mem/mem.cpp:199-213 | the answer is the first offset where the scan's test holds, and None means no offset passes |
| MemPrimitives.ScanHitIsWildcardMatch | include/Mem/mem.cpp:201-207 | the scan's test is exactly: first and last bytes equal the pattern's stored bytes, and every significant interior byte matches |
| MemPrimitives.LeadingWildcardNeedsZero | include/Mem/mem.cpp:201 | a leading "?" only matches a zero byte, because the first byte is compared without its mask |
| MemPrimitives.LeadingWildcardMissesExample | include/Mem/mem.cpp:201 | a concrete image where "? 90" misses a non-zero first byte |
| MemPrimitives.PatternScanEx | include/Mem/mem.cpp:170-215 | the result is the module base plus the first scan hit in the image, or null |
| MemPrimitives.MatchesAt | include/Mem/mem.cpp:201-207 | the inner comparison loop answers exactly the scan's test at one offset |
| MemPrimitives.PatternScan | include/Mem/mem.cpp:145-150 | scans the module image of SizeOfImage bytes from the module base |
| MemPrimitives.FirstPatternHitSpec | include/Mem/mem.cpp:153-164 | the list form answers the first pattern that hits, and every earlier pattern misses |
| MemPrimitives.PatternScanAny | include/Mem/mem.cpp:153-164 | the loop over patterns returns the first hit, or null |
| MemPrimitives.RelJumpKeepsLowDword | include/Mem/mem.cpp:95-104 | a relative jump lands at source + 5 + the sign-extended low 32 bits of the distance |
| MemPrimitives.RelJumpReaches | include/Mem/mem.cpp:95-104 | when the displacement fits in int32 the E9 jump lands on the target |
| MemPrimitives.AbsJumpReaches | include/Mem/mem.cpp:80-93 | the absolute jump is push rax; mov rax, imm64; jmp rax, with the 8 destination bytes as the immediate |
| MemPrimitives.Advance | include/Mem/mem.cpp:92 | the optional nWritten counter grows by the bytes written, and stays absent when absent |
| MemPrimitives.Process.Write | include/Mem/mem.cpp:139-143 | memory becomes the old memory overlaid with the data at the address |
| MemPrimitives.Process.Patch | include/Mem/mem.cpp:106-113 | the code bytes are written at the address and nothing else changes; the protection the copy is wrapped in is put back and not represented |
| MemPrimitives.Process.Nop | include/Mem/mem.cpp:123-129 | AlignedNops(n), the aligned multi-byte NOP forms, is written at the address, and the n bytes decode as NOP instructions; the protection the fill is wrapped in is put back and not represented |
| MemPrimitives.Process.RelativeJump | include/Mem/mem.cpp:95-104 | writes E9 and the low four bytes of the distance |
| MemPrimitives.Process.AbsoluteJump | include/Mem/mem.cpp:80-93 | writes the 13-byte absolute jump and advances nWritten |
| MemPrimitives.PatchEx | include/Mem/mem.cpp:115-121 | the target process's memory gets the code bytes |
| MemPrimitives.NopEx | include/Mem/mem.cpp:131-137 | a scratch buffer filled with AlignedNops(n) is written to the target process with PatchEx; an unmapped target changes nothing |
| MemPrimitives.Window | include/Mem/mem.cpp:36-42 | the search window: the address's page start, and min/max bounds widened to the application range and to the 2 GiB rel32 reach |
| MemPrimitives.SearchMeasureDrops | include/Mem/mem.cpp:45-75 | each pass of the search loop brings it closer to the exit test, so the loop ends |
| MemPrimitives.SearchFindsFirstGrant | include/Mem/mem.cpp:45-75 | a non-null result was granted at some page offset, and every earlier high/low probe was refused |
| MemPrimitives.SearchNullMeansAllRefused | include/Mem/mem.cpp:71-77 | a null result means every probe up to the window's exit was refused |
| MemPrimitives.AllocateMemory | include/Mem/mem.cpp:32-78 | the loop's answer equals the search specification over the window |
| MemPrimitives.TryPages | include/Mem/mem.cpp:53-74 | one iteration either finishes with the specification's answer, or continues without changing it |
| MemChain.WalkConcat | include/Mem/mem.h:22-39 | walking xs then ys is walking xs + ys, and a failure in xs stays a failure |
| MemChain.ChainCompose | include/Mem/mem.h:22-39 | FindDMAAddy over xs + ys is FindDMAAddy over ys from the address xs reaches |
| MemChain.ChainSingle | include/Mem/mem.h:28-32 | one offset: read the pointer, add the offset; null or unreadable gives 0 |
| MemChain.PointerChainOfNull | include/Mem/mem.h:49-56 | when the walk reaches null, the Ptr form returns just the last offset |
| MemChain.FindDMAAddy | include/Mem/mem.h:22-39 | the loop's result is the chain specification: null on a null or unreadable link |
| MemChain.FindDMAAddyPtr | include/Mem/mem.h:41-63 | the loop's result is the Ptr chain specification: the last offset is added without a read |
| Machine.FromLEOfLE | include/Mem/mem.cpp:89 | little-endian encoding then decoding gives the value back |
| Machine.LEOfFromLE | include/Mem/mem.cpp:89 | decoding then re-encoding gives the bytes back |
| Machine.SignExtendWrap32 | include/Mem/hook.cpp:11 | a distance that fits in int32 survives truncation to 32 bits and sign extension |
| Machine.OverlayConcat | include/Mem/hook.cpp:16-18 | writing s and then t right after it equals writing s + t |
| InlineHook.MakeLength | include/Mem/hook.h:12-19 | each length is raised to its jump's size when shorter and kept otherwise |
| InlineHook.DistanceInUserSpace | include/Mem/hook.cpp:11 | the signed 64-bit distance is detour - address - 5 for user-space addresses |
| InlineHook.NearJumpsLand | include/Mem/hook.cpp:11-22 | on the near path (both displacements fit), the site jumps to the trampoline and the trampoline's jump returns after the patched bytes |
| InlineHook.NearEntryLands | include/Mem/hook.cpp:21-22 | the site's E9 jump lands on the detour page |
| InlineHook.NearReturnLands | include/Mem/hook.cpp:16-18 | when both displacements fit, the trampoline's closing jump, placed after the code and saved bytes, lands at address + 5, just after the site's entry jump |
| InlineHook.NearPathAsWrittenMissesReturn | include/Mem/hook.cpp:11-18 | a concrete address/detour pair that the as-written test sends down the near path, where the closing jump misses the return address |
| InlineHook.FarReturnLands | include/Mem/hook.cpp:32-45 | the far trampoline starts with pop rax, and its closing absolute jump returns to the gateway at address + 13, where the site holds its own pop rax followed by NOPs |
| InlineHook.FarEntryMissesTrampoline | include/Mem/hook.cpp:43-45 | the far site's absolute jump takes its immediate from the trampoline's first bytes, not from the trampoline address |
| InlineHook.Release | include/Mem/hook.cpp:92-98 | releasing the page removes exactly its addresses |
| InlineHook.RestoreAndRelease | include/Mem/hook.cpp:92-98 | writing the saved bytes back and freeing the page gives the memory before Enable |
| InlineHook.EnableDisableRoundTrip | include/Mem/hook.cpp:85-98 | Enable then Disable leaves memory exactly as it was |
| InlineHook.RestoreOverwrite | include/Mem/hook.cpp:107-112 | overwriting bytes and writing the saved ones back restores memory |
| InlineHook.WriteNearTrampoline | include/Mem/hook.cpp:16-18 | writes the code, the saved bytes and the return jump at the detour page |
| InlineHook.WriteFarTrampoline | include/Mem/hook.cpp:32-38 | writes pop rax, the code, the saved bytes and the absolute return jump |
| InlineHook.WriteNearSite | include/Mem/hook.cpp:21-22 | writes the E9 jump to the trampoline and NOP-fills up to the relative length |
| InlineHook.WriteFarSite | include/Mem/hook.cpp:43-45 | writes the absolute jump and NOP-fills up to the absolute length |
| InlineHook.Hook.Locate | include/Mem/hook.cpp:52-83 | the shared constructor body: scan for the pattern; null disables the hook, otherwise the original bytes are snapshotted |
| InlineHook.Hook.WithLength | include/Mem/hook.cpp:52-60 | length-only constructor: default lengths, no code, the first `length` bytes snapshotted |
| InlineHook.Hook.WithTrampoline | include/Mem/hook.cpp:62-72 | the given lengths and code, snapshotting the longer length |
| InlineHook.Hook.WithCode | include/Mem/hook.cpp:74-83 | code-only constructor: default lengths, snapshotting the code's length |
| InlineHook.Hook.SetupHook | include/Mem/hook.cpp:5-50 | allocates a near page and takes the near path when both rel32 displacements fit (the corrected test of the hook.cpp:11 finding), the far path otherwise; the final page protection is not modelled |
| InlineHook.Hook.Enable | include/Mem/hook.cpp:85-90 | sets up the hook once and marks it enabled; the memory is EnabledMem, whose near/far choice is the corrected test of the hook.cpp:11 finding |
| InlineHook.Hook.Disable | include/Mem/hook.cpp:92-98 | restores the original bytes, frees the page, clears the status |
| InlineHook.Hook.NopEnable | include/Mem/hook.cpp:100-105 | NOPs the code length at the address |
| InlineHook.Hook.NopDisable | include/Mem/hook.cpp:107-112 | restores the code length of original bytes |
| InlineHook.Hook.EnableOnlyRewrite | include/Mem/hook.cpp:114-119 | writes the code bytes over the site |
| InlineHook.Hook.DisableOnlyRewrite | include/Mem/hook.cpp:121-126 | writes the original bytes back |
| InlineHook.Hook.ToggleOnlyRewrite | include/Mem/hook.cpp:128-133 | does whichever of the two the status selects, and flips it |
| InlineHook.Hook.NopToggle | include/Mem/hook.cpp:135-140 | NopEnable or NopDisable by status |
| InlineHook.Hook.Toggle | include/Mem/hook.cpp:142-147 | Enable or Disable by status |
| TinyShared.GetErrorMessage | include/TinyHook/shared.h:83-99 | every error has a non-empty message |
| TinyShared.ErrorOfMessageInverts | include/TinyHook/shared.h:83-99 | the message determines the error |
| TinyShared.ErrorMessagesDistinct | include/TinyHook/shared.h:20-31 | distinct errors have distinct messages |
| TinyShared.Manager.constructor | include/TinyHook/shared.h:178-233 | the registry starts empty |
| TinyShared.Manager.GetOriginal | include/TinyHook/shared.h:181-188 | the registered original for a hook, or an invalid Original when there is none |
| TinyShared.Manager.RegisterHook | include/TinyHook/shared.h:190-193 | the hook maps to the original, overwriting any earlier entry |
| TinyShared.Manager.UnregisterHook | include/TinyHook/shared.h:200-203 | removes the hook and reports whether it was there |
| TinyShared.Manager.ClearAll | include/TinyHook/shared.h:210-213 | the registry becomes empty |
| TinyShared.Patched | include/TinyHook/shared.h:36-73 | the word is written exactly when the address is non-null, its region is known, and it is writable or can be made so; the protection is put back; each refusal has its error |
| TinyShared.AddressSpace.Patch | include/TinyHook/shared.h:36-73 | the method's new memory and status are Patched's |
| TinyShared.AddressSpace.PatchIndex | include/TinyHook/shared.h:76-81 | patches the slot at table + 8*index |
| TinyShared.Emplace | include/TinyHook/iathook.h:121 | try_emplace: adds the key when absent and keeps the old record otherwise |
| TinyShared.RestoreRecord | include/TinyHook/eathook.h:70-85 | one restore: patch the recorded original back and unregister |
| TinyShared.ProgressStep | include/TinyHook/iathook.h:56-69 | restoring one more record keeps the restore-all invariant |
| TinyShared.RestoreAll | include/TinyHook/iathook.h:56-69 | every recorded slot holds its original again, and nothing else is written |
| IatHook.DescriptorEnd | include/TinyHook/iathook.h:108 | the descriptor walk stops at the first zero Name |
| IatHook.LookupEnd | include/TinyHook/iathook.h:113 | the thunk walk stops at the first zero entry |
| IatHook.MatchIn | include/TinyHook/iathook.h:113-121 | the first thunk that is not an ordinal import and whose name equals the target, ignoring case |
| IatHook.FirstImport | include/TinyHook/iathook.h:97-131 | the first descriptor and thunk holding the name, with no match before it |
| IatHook.ImportSlotMapped | include/TinyHook/iathook.h:97-131 | a found slot is mapped memory |
| IatHook.HookStepPatches | include/TinyHook/iathook.h:20-37 | a successful hook writes the new function into the slot and registers the slot's value under it |
| IatHook.HookThenUnhook | include/TinyHook/iathook.h:20-55 | hooking a fresh name and then unhooking it restores memory, records and registry |
| IatHook.HookTwiceThenUnhook | include/TinyHook/iathook.h:20-55 | a second hook keeps the first record, so unhook restores the original import |
| IatHook.HookRecordsName | include/TinyHook/iathook.h:20-37 | after a successful hook the name is hooked, and the count grows by one only for a new name |
| IatHook.UnhookForgetsName | include/TinyHook/iathook.h:39-55 | unhooking an unknown name is NotHooked and changes nothing; success removes the name |
| IatHook.FindInDescriptor | include/TinyHook/iathook.h:113-128 | the thunk loop answers MatchIn |
| IatHook.FindImport | include/TinyHook/iathook.h:108-130 | the descriptor loop answers FirstImport |
| IatHook.IATHook.FindIATFunction | include/TinyHook/iathook.h:97-131 | the result is the import slot or FunctionNotFound, and a found name is recorded by try_emplace |
| IatHook.IATHook.Hook | include/TinyHook/iathook.h:20-37 | the method agrees with HookStep |
| IatHook.IATHook.Unhook | include/TinyHook/iathook.h:39-55 | the method agrees with UnhookStep |
| IatHook.IATHook.UnhookAll | include/TinyHook/iathook.h:56-69 | every slot is restored and the records are cleared |
| IatHook.IATHook.GetOriginal | include/TinyHook/iathook.h:82-89 | the slot pointer of a hooked name; NotHooked otherwise |
| EatHook.FirstExport | include/TinyHook/eathook.h:100-110 | the first export name equal to the target, ignoring case |
| EatHook.ExportLookup | include/TinyHook/eathook.h:87-112 | the function address and its RVA slot, or a null slot when the name is missing |
| EatHook.OffsetResolves | include/TinyHook/eathook.h:49-51 | the stored offset resolves back to the replacement: base + (replacement - base) |
| EatHook.HookRedirectsExport | include/TinyHook/eathook.h:35-53 | after a hook, resolving the export gives the replacement |
| EatHook.HookThenUnhook | include/TinyHook/eathook.h:35-68 | hook then unhook restores memory, records and registry |
| EatHook.FindEATFunction | include/TinyHook/eathook.h:87-112 | the loop answers ExportLookup |
| EatHook.EATHook.Hook | include/TinyHook/eathook.h:35-53 | agrees with HookStep, including the refusals |
| EatHook.EATHook.Unhook | include/TinyHook/eathook.h:55-68 | agrees with UnhookStep |
| EatHook.EATHook.UnhookAll | include/TinyHook/eathook.h:70-85 | every slot is restored and the records are cleared |
| TinyVmt.GetVTableSize | include/TinyHook/vmthook.h:59-77 | counts the leading slots that hold executable method pointers and stops at the first that does not |
| TinyVmt.Records | include/TinyHook/vmthook.h:38-49 | the originals as slot records, each at its own slot address |
| TinyVmt.HookThenUnhook | include/TinyHook/vmthook.h:15-36 | hook then unhook restores memory, originals and registry |
| TinyVmt.HookTwiceThenUnhook | include/TinyHook/vmthook.h:15-36 | a second hook keeps the first original, so unhook restores the true original |
| TinyVmt.VMTHook.constructor | include/TinyHook/vmthook.h:12 | records the table and its counted size |
| TinyVmt.VMTHook.Hook | include/TinyHook/vmthook.h:15-25 | agrees with HookStep: null on a bad index, otherwise the previous method |
| TinyVmt.VMTHook.Unhook | include/TinyHook/vmthook.h:27-36 | agrees with UnhookStep |
| TinyVmt.VMTHook.UnhookAll | include/TinyHook/vmthook.h:38-49 | every hooked slot is restored and the originals are cleared |
| LegacyVmt.RestoreStep | include/VMTHook/vmthook.cpp:42-53 | restoring one more index keeps the unhook-all invariant |
| LegacyVmt.HookRefusesHooked | include/VMTHook/vmthook.cpp:20-29 | hooking an already hooked index returns null and changes nothing |
| LegacyVmt.HookThenUnhook | include/VMTHook/vmthook.cpp:20-40 | hook then unhook restores memory, hooks and registry |
| LegacyVmt.HookThenUnhookAll | include/VMTHook/vmthook.cpp:20-53 | hook then unhook-all restores the table |
| LegacyVmt.VMTHook.Patch | include/VMTHook/vmthook.cpp:11-17 | writes the slot |
| LegacyVmt.VMTHook.Hook | include/VMTHook/vmthook.cpp:20-29 | agrees with HookStep |
| LegacyVmt.VMTHook.Unhook | include/VMTHook/vmthook.cpp:31-40 | agrees with UnhookStep |
| LegacyVmt.VMTHook.UnhookAll | include/VMTHook/vmthook.cpp:42-53 | every hooked slot is restored |
| HwbpHook.SetDr7Spec | include/TinyHook/hwbphook.h:207-229 | setting register i enables its local bit, stores access type and length in its field, and leaves the other registers' bits alone |
| HwbpHook.SetDebugRegister | include/TinyHook/hwbphook.h:207-229 | DRi gets the address; DR6 and EFLAGS are untouched |
| HwbpHook.SetDebugRegisterSpec | include/TinyHook/hwbphook.h:207-229 | the DR7 effects of SetDebugRegister, as in SetDr7Spec |
| HwbpHook.ClearDebugRegister | include/TinyHook/hwbphook.h:231-246 | DRi becomes 0 |
| HwbpHook.ClearDebugRegisterSpec | include/TinyHook/hwbphook.h:231-246 | the enable bit and the field of register i are cleared, and the rest of DR7 is kept |
| HwbpHook.ClearAfterSet | include/TinyHook/hwbphook.h:207-246 | clear after set equals clear alone |
| HwbpHook.FreeFrom | include/TinyHook/hwbphook.h:198-205 | the first slot with a null address, or -1 |
| HwbpHook.MatchFrom | include/TinyHook/hwbphook.h:75-79 | the first slot with the given address, or -1 |
| HwbpHook.HitFrom | include/TinyHook/hwbphook.h:179-193 | the first occupied slot whose DR6 status bit is set, or -1 |
| HwbpHook.HookArms | include/TinyHook/hwbphook.h:38-70 | a hook takes the first free slot, stores the breakpoint and arms it in the current context; full or null gives its error |
| HwbpHook.HookThenUnhook | include/TinyHook/hwbphook.h:38-95 | hook then unhook frees the slot and disarms the register |
| HwbpHook.UnhookNullMatchesFreeSlot | include/TinyHook/hwbphook.h:72-95 | unhooking address 0 matches a free slot and reports success |
| HwbpHook.StepsKeepTidy | include/TinyHook/hwbphook.h:38-95 | hook and unhook keep the slot table consistent with the debug registers |
| HwbpHook.HandlerResumes | include/TinyHook/hwbphook.h:173-196 | single-step on a hit slot runs the callback, sets RF and resumes; anything else passes on with the context untouched |
| HwbpHook.HWBPHook.FindFreeDebugRegister | include/TinyHook/hwbphook.h:198-205 | the loop answers FreeFrom |
| HwbpHook.HWBPHook.Hook | include/TinyHook/hwbphook.h:38-70 | agrees with HookStep |
| HwbpHook.HWBPHook.Unhook | include/TinyHook/hwbphook.h:72-95 | agrees with UnhookStep |
| HwbpHook.HWBPHook.VectoredHandler | include/TinyHook/hwbphook.h:173-196 | agrees with HandlerStep |
| VehHook.GetPage | include/TinyHook/vehhook.h:10-11 | the page-aligned address at or below the address, within one page |
| VehHook.GetPageIsPageOf | include/TinyHook/vehhook.h:10-11 | two addresses share GetPage exactly when they share a page |
| VehHook.Guarded | include/TinyHook/vehhook.h:103-111 | PAGE_GUARD is added to the page's protection exactly when the page is known, not yet guarded, and the protect call succeeds |
| VehHook.GuardTwice | include/TinyHook/vehhook.h:103-111 | once guarded, guarding again is refused and changes nothing |
| VehHook.HookStep | include/TinyHook/vehhook.h:29-43 | null arguments or a known address are refused without change; otherwise the hook is recorded with its page |
| VehHook.UnhookStep | include/TinyHook/vehhook.h:45-56 | removes a known non-null address; otherwise reports an error |
| VehHook.HookThenUnhook | include/TinyHook/vehhook.h:29-56 | hook then unhook restores the hooks map, and the page keeps its guard |
| VehHook.HookTwice | include/TinyHook/vehhook.h:29-43 | a second hook on the address is AlreadyHooked and keeps the first callback |
| VehHook.HitRearms | include/TinyHook/vehhook.h:113-159 | a guard-page hit on a hooked address runs the callback and sets TF; the single step then re-guards the page |
| VehHook.HandlerPassesOthers | include/TinyHook/vehhook.h:161 | other exception codes pass on unchanged |
| VehHook.ScanHooks | include/TinyHook/vehhook.h:128-143 | the loop tells whether a hook lies on the faulting page and whether rip is hooked |
| VehHook.VEHHook.GuardPage | include/TinyHook/vehhook.h:103-111 | agrees with Guarded |
| VehHook.VEHHook.Hook | include/TinyHook/vehhook.h:29-43 | agrees with HookStep |
| VehHook.VEHHook.Unhook | include/TinyHook/vehhook.h:45-56 | agrees with UnhookStep |
| VehHook.VEHHook.UnhookAll | include/TinyHook/vehhook.h:58-62 | the hooks map becomes empty |
| VehHook.VEHHook.OnGuardPage | include/TinyHook/vehhook.h:118-146 | the guard-page branch of HandlerStep |
| VehHook.VEHHook.OnSingleStep | include/TinyHook/vehhook.h:148-159 | the single-step branch of HandlerStep |
| VehHook.VEHHook.VectoredHandler | include/TinyHook/vehhook.h:113-162 | agrees with HandlerStep |
| SafetyWrapper.MakeRecord | include/SafetyHook/Wrapper.hpp:32-72 | a FunctionHook holds the hook only when creation succeeded, and the error code only when it failed with a non-zero code |
| SafetyWrapper.UnhookRecord | include/SafetyHook/Wrapper.hpp:94-100 | unhook empties the hook and keeps kind and error |
| SafetyWrapper.HookOf | include/SafetyHook/Wrapper.hpp:74-92 | the getter answers the hook only for its own kind |
| SafetyWrapper.ParseError | include/SafetyHook/Wrapper.hpp:125-139 | codes 0..6 have messages, and others have none |
| SafetyWrapper.ParseErrorDistinct | include/SafetyHook/Wrapper.hpp:125-139 | distinct codes give distinct answers |
| SafetyWrapper.Append | include/SafetyHook/Wrapper.hpp:142-165 | pushes the record onto the key's vector, creating it when missing |
| SafetyWrapper.SetupRefused | include/SafetyHook/Wrapper.hpp:142-165 | a null argument or a duplicate counts a failure and changes nothing else |
| SafetyWrapper.SetupAppends | include/SafetyHook/Wrapper.hpp:142-165 | otherwise the new record is appended under the replacement |
| SafetyWrapper.BadAllocationUncounted | include/SafetyHook/Wrapper.hpp:102-105 | a failure with code 0 is not counted, and its record holds no hook |
| SafetyWrapper.GetOriginalOf | include/SafetyHook/Wrapper.hpp:206-232 | a non-null answer is a hook stored under the key |
| SafetyWrapper.SetupVmtAnswers | include/SafetyHook/Wrapper.hpp:168-190 | SetupVmt returns the created hook, appends its record, and counts failures |
| SafetyWrapper.SetupCount | include/SafetyHook/Wrapper.hpp:246-250 | the hook count after Setup |
| SafetyWrapper.UnhookCount | include/SafetyHook/Wrapper.hpp:258-268 | Unhook removes the key's vector and lowers the count by one if it was present |
| SafetyWrapper.SetupThenUnhook | include/SafetyHook/Wrapper.hpp:142-268 | setup then unhook leaves the hooks maps as before |
| SafetyWrapper.HooksManager.Setup | include/SafetyHook/Wrapper.hpp:142-165 | agrees with SetupStep |
| SafetyWrapper.HooksManager.SetupVmt | include/SafetyHook/Wrapper.hpp:168-190 | agrees with SetupVmtStep |
| SafetyWrapper.HooksManager.SetupVm | include/SafetyHook/Wrapper.hpp:193-204 | agrees with SetupVmStep |
| SafetyWrapper.HooksManager.GetOriginal | include/SafetyHook/Wrapper.hpp:206-232 | answers GetOriginalOf |
| SafetyWrapper.HooksManager.GetVmtHook | include/SafetyHook/Wrapper.hpp:235-239 | answers the last record's VMT hook |
| SafetyWrapper.HooksManager.GetFailCount | include/SafetyHook/Wrapper.hpp:241-244 | answers the failure counter |
| SafetyWrapper.HooksManager.GetHookCount | include/SafetyHook/Wrapper.hpp:246-250 | answers the number of keys in both maps |
| SafetyWrapper.HooksManager.UnhookAll | include/SafetyHook/Wrapper.hpp:252-256 | both maps become empty |
| SafetyWrapper.HooksManager.Unhook | include/SafetyHook/Wrapper.hpp:258-268 | agrees with UnhookStep |
| HeapAllocation.DescendingIndices | src/ui/backend/D3D12.h:46-49 | the free list Create builds holds each index below the count exactly once |
| HeapAllocation.DescendingAt | src/ui/backend/D3D12.h:46-49 | position j of the list holds count - 1 - j |
| HeapAllocation.AllocOrder | src/ui/backend/D3D12.h:52-59 | after k allocations the next index handed out is k |
| HeapAllocation.CountDown | src/ui/backend/D3D12.h:46-49 | Create's loop builds the descending list |
| HeapAllocation.IndexOf | src/ui/backend/D3D12.h:61-67 | the recovered index is a 32-bit value |
| HeapAllocation.IndexOfHandle | src/ui/backend/D3D12.h:52-67 | Free recovers the index from the handle Alloc gave, even when the 64-bit sum wraps |
| HeapAllocation.WrapDifference | src/ui/backend/D3D12.h:63-66 | unsigned (start + offset) - start is the offset |
| HeapAllocation.AllocThenFree | src/ui/backend/D3D12.h:52-67 | Alloc then Free gives back the same free list |
| HeapAllocation.HeapAllocator.Create | src/ui/backend/D3D12.h:38-50 | records the heap's starts and increment, and fills the free list from the last index down |
| HeapAllocation.HeapAllocator.Alloc | src/ui/backend/D3D12.h:52-59 | pops the back index and answers its CPU and GPU handles, from which IndexOf recovers it |
| HeapAllocation.HeapAllocator.Free | src/ui/backend/D3D12.h:61-67 | pushes the CPU handle's index back |
| Steam.AddressFromRef32 | src/ui/backend/Steam.h:43-46 | the x86 reference reads an absolute 32-bit address |
| Steam.AddressFromRef64Decodes | src/ui/backend/Steam.h:32-35 | the x64 reference decodes a rip-relative displacement back to the slot |
| Steam.AddressFromRef32Decodes | src/ui/backend/Steam.h:43-46 | the x86 reference decodes to the slot whose address it holds |
| Steam.SwapThenRestore | src/ui/backend/Steam.h:11-23 | SwapPointer stores the new address and registers the old one, which restores the slot |
| Steam.SwapTwice | src/ui/backend/Steam.h:11-23 | a second swap chains: the first detour becomes the second's original |
| Steam.SwapPointer | src/ui/backend/Steam.h:11-23 | agrees with SwapStep through the address space and registry |
| Steam.CodeInjective | src/ui/backend/Steam.h:49-101 | the API codes are distinct |
| Steam.HookWith | src/ui/backend/Steam.h:49-101 | the swaps done are those of the selected backends, in source order |
| Steam.AllSelectedAppend | src/ui/backend/Steam.h:49-101 | selection is preserved by appending |
| Steam.HookAsWritten | src/ui/backend/Steam.h:55-97 | the source's bitwise tests select the backends |
| Steam.Hook | src/ui/backend/Steam.h:49-101 | the corrected equality tests select only the current API's backend |
| Steam.HookAsWrittenD3D12 | src/ui/backend/Steam.h:55-84 | as written, D3D12 also swaps the D3D9 and D3D11 pointers |
| Steam.SelectsAsWrittenStray | src/ui/backend/Steam.h:55-89 | the bitwise test selects a backend exactly when the codes share a bit |
| Steam.HookSwapsOwnBackend | src/ui/backend/Steam.h:49-101 | with equality tests every swap belongs to the current API |
| Steam.HookD3D12 | src/ui/backend/Steam.h:79-84 | D3D12 swaps exactly Present and ResizeBuffers |
| Keybinds.OwnModifier | src/misc/keybinds.h:15-25 | the intended table, kept at 16 bits: a modifier key maps to its own ImGuiMod flag, every other key to 0 (the corrected member of the keybinds.h:15 finding) |
| Keybinds.StoredModifier | src/misc/keybinds.h:15-25 | the table as declared, with std::uint8_t values: every key's stored modifier is 0 |
| Keybinds.ModifiersMatchAsWrittenIgnoresKey | src/misc/keybinds.h:100-102 | as written, the modifier test holds exactly when the held modifiers equal the bind's, whatever its key |
| Keybinds.ModifierKeyMatchesWithOwnFlag | src/misc/keybinds.h:100-102 | with the 16-bit table, a bind on a modifier key matches its own modifiers plus the key's flag, and only when that flag is held |
| Keybinds.CtrlToggleAsWritten | src/misc/keybinds.h:96-116 | a Left Ctrl toggle pressed with Ctrl held: as written the modifier test fails, with the 16-bit table the bool flips |
| Keybinds.BaseName | src/misc/keybinds.h:33-61 | OEM keys use the layout name (with its trailing NUL), others the ImGui name, and 0 names nothing |
| Keybinds.KeyNameShape | src/misc/keybinds.h:33-69 | an empty base name gives "None"; otherwise the name is the held modifiers' prefixes in the order Win+Ctrl+Shift+Alt+ followed by the base name |
| Keybinds.NewKeyBind | src/misc/keybinds.h:80-89 | the constructor stores its fields and computes the name |
| Keybinds.ChangeType | src/misc/keybinds.h:91-94 | flips hold and toggle, and nothing else |
| Keybinds.ChangeTypeTwice | src/misc/keybinds.h:91-94 | two flips give back the bind |
| Keybinds.Update | src/misc/keybinds.h:118-124 | stores the pressed key and modifiers, renames, stops waiting |
| Keybinds.ClearedIsNone | src/misc/keybinds.h:118-124 | binding key 0 with no modifiers names "None" |
| Keybinds.Check | src/misc/keybinds.h:96-116 | only the bind's own flag can change, and only when the function is set and the modifiers match: hold follows the key, toggle flips on press; the match uses the 16-bit own modifier (the corrected table of the keybinds.h:15 finding) |
| Keybinds.CheckAll | src/misc/keybinds.h:144-151 | the pass over the list keeps the flag set's keys |
| Keybinds.CheckAllLeavesOthers | src/misc/keybinds.h:144-151 | flags no bind points at are unchanged |
| Keybinds.CheckAllSole | src/misc/keybinds.h:144-151 | a flag only one bind points at ends as that bind's Check decides |
| Keybinds.KeyBindList.constructor | src/misc/keybinds.h:127-130 | the list starts with the Insert toggle for the menu |
| Keybinds.KeyBindList.GetKeyBind | src/misc/keybinds.h:132-142 | the first bind for the function, or none |
| Keybinds.KeyBindList.ChangeTypeAt | src/misc/keybinds.h:91-94 | the entry is replaced by its ChangeType |
| Keybinds.KeyBindList.UpdateAt | src/misc/keybinds.h:118-124 | the entry is replaced by its Update |
| Keybinds.KeyBindList.CheckAt | src/misc/keybinds.h:96-116 | the flags become Check's |
| Keybinds.KeyBindList.CheckKeybinds | src/misc/keybinds.h:144-151 | the loop's flags are CheckAll's |
| Widgets.Lowered | src/ui/widgets.h:15-18 | each character lowered |
| Widgets.SpacesReplaced | src/ui/widgets.h:20 | spaces become underscores |
| Widgets.Erased | src/ui/widgets.h:22-25 | only alphanumerics and underscores survive |
| Widgets.ToSnakeCaseEach | src/ui/widgets.h:11-28 | the three passes equal one character-wise map |
| Widgets.ToSnakeCaseShape | src/ui/widgets.h:11-28 | the result is no longer than the input and holds only lower-case alphanumerics and underscores |
| Widgets.ErasedFrom | src/ui/widgets.h:22-25 | every kept character comes from the input |
| Widgets.SnakeEachFixes | src/ui/widgets.h:11-28 | snake-case text is left alone |
| Widgets.ToSnakeCaseIdempotent | src/ui/widgets.h:11-28 | applying it twice equals applying it once |
| Widgets.RegisterStep | src/ui/widgets.h:98-122 | a null function binds nothing; a new function is appended; a known one keeps its first bind |
| Widgets.FirstBinding | src/misc/keybinds.h:132-142 | the first bind for the function, or none |
| Widgets.LabelBinding | src/ui/widgets.h:98-109 | the implicit bind: snake-case name, key 0, toggle, named "None" |
| Widgets.RegisterTwice | src/ui/widgets.h:98-122 | registering the same function twice appends once |
| Widgets.CustomBindKey | src/ui/widgets.h:98-109 | the list and answer follow RegisterStep with the label's bind |
| Widgets.CustomBindKeyWith | src/ui/widgets.h:111-122 | the list and answer follow RegisterStep with the given bind |
| Startup.FindFrom | src/main.cpp:10-16 | the first position at or after from where the needle occurs |
| Startup.StristrFinds | src/main.cpp:10-16 | an empty needle returns the haystack; otherwise a hit exactly when the needle occurs, returning the tail from its first occurrence |
| Startup.StristrFound | src/main.cpp:10-16 | a hit exactly when the needle occurs |
| Startup.StristrCaseSensitive | src/main.cpp:10-16 | despite its name the search is case-sensitive |
| Startup.BlacklistedIff | src/main.cpp:33-50 | a process is blacklisted exactly when its name contains UnityCrashHandler |
| Startup.TitleAPIFirstWord | src/main.cpp:52-59 | the API of the first of DX9, DX11, DX12, OpenGL, Vulkan found in the title, else the API unchanged |
| Startup.Overlay.ParseTitleForGraphicsAPI | src/main.cpp:52-59 | the graphics API becomes TitleAPI of the title |

## Left out

- PE parsing: the DOS/NT headers and the import and export directories are given
  already parsed. Export function slots hold whole words, as the source's types treat
  them; the PE format's 32-bit RVAs are not modelled. The source (eathook.h:96-97) reads
  the export address and name tables through uintptr_t pointers, an 8-byte stride where
  the PE format stores 4-byte RVAs; the model follows the source's stride and does not
  model the mismatch.
- TinyVmt.GetVTableSize: the C++ loop has no bound. The model takes a ghost bound on
  the table length so the loop terminates; this applies to LegacyVmt too.
- LegacyVmt.VMTHook.Patch: the source ignores the results of its VirtualProtect calls,
  so the model does not track protections there.
- HwbpHook.HWBPHook.Hook: ApplyToAllThreads (thread snapshot, suspend, set context) is
  a boolean input. Other threads' contexts are not modelled, only the current thread's.
- HwbpHook.SetDebugRegister: indices outside 0..3 are excluded by a requires; the
  source only reaches it with a found slot.
- Concurrency: the mutexes in Manager, VEH and HWBP are not modelled. VEH's unlocked
  contains check is not modelled either.
- VehHook: a hook region that spans several pages is not modelled. The thread_local
  lastAddress is one variable.
- SafetyWrapper: the results of SafetyHook's own creation calls are inputs; the 32-bit
  overflow of the `fails` counter is not modelled.
- HeapAllocation.HeapAllocator.Free: the debug assertion that the CPU and GPU indices
  agree is modelled as a requires. Its requires also demands that the recovered index be
  below the heap's capacity, which the source does not check; every handle Alloc hands
  out meets it.
- MemPrimitives.PatternScanEx, MemPrimitives.PatternScan, MemPrimitives.PatternScanAny
  and InlineHook.Located require the pattern to be Scannable, which excludes an empty
  pattern, one with more elements than the scanned region, and one whose parse runs past
  its NUL (a trailing space or an odd hex digit, mem.cpp:181-195); on those the source
  indexes outside its buffers.
- InlineHook.Hook.Locate, InlineHook.Hook.WithLength, InlineHook.Hook.WithTrampoline
  and InlineHook.Hook.WithCode require CanSnapshot, whose n <= ORIGINAL_CAPACITY
  excludes a snapshot longer than the 128-byte originalBytes array; there the memcpy at
  hook.cpp:59, 71 or 82 overflows it.
- InlineHook.Hook.NopDisable and InlineHook.Hook.DisableOnlyRewrite require
  codeLen <= ORIGINAL_CAPACITY on a live hook; with a longer code the source copies
  past the end of originalBytes.
- InlineHook.Hook.EnableOnlyRewrite requires code to be present on a live hook, which
  excludes a hook built by the length-only constructor: hook.cpp:52 leaves code null
  and line 118 copies codeLen bytes from it.
- InlineHook.Hook.ToggleOnlyRewrite has the same exclusion of the null code of the
  length-only constructor (it enables through EnableOnlyRewrite), and the same
  codeLen <= ORIGINAL_CAPACITY bound as DisableOnlyRewrite.
- SafetyWrapper.GetOriginalOf, SafetyWrapper.HooksManager.GetOriginal and
  SafetyWrapper.HooksManager.GetVmtHook require the key to hold a non-empty vector; in
  the source (Wrapper.hpp:214-238) operator[] inserts an empty vector for a missing key
  and back() on it is undefined behaviour, and that insertion is not modelled either.
- MemPrimitives.PatchEx and MemPrimitives.NopEx: the write is all or nothing (a mapped
  range gets every byte, an unmapped one none); a WriteProcessMemory that copies part
  of the data is not modelled, nor are the VirtualProtectEx calls around it (the model
  has no page protections).
- MemChain.FindDMAAddyPtr: requires at least one offset; with none the source reads
  offsets.back() of an empty vector, which is undefined behaviour.
- InlineHook.Hook.SetupHook: chooses the near path with the corrected test (both rel32
  displacements fit, see Findings) rather than hook.cpp:11's test of the entry distance
  alone; the final VirtualProtect(detour, codeLen, PAGE_EXECUTE_READ) at hook.cpp:49 is
  not modelled, as the byte model has no page protections. Its requires (CanSetUp)
  excludes two paths on which the source writes through a null pointer: a failed page
  search (AllocateMemory returns nullptr at mem.cpp:71-77, which hook.cpp:8 stores
  unchecked before lines 16-22 or 35-45 write to it), and a hook built by the
  length-only constructor (hook.cpp:52-60 leaves code null, which line 16 or 36 copies
  from). It also excludes a target outside x64 user space or not mapped, a page the
  trampoline does not fit, and lengths below the jumps' sizes.
- InlineHook.Hook.Enable: its memory is EnabledMem, which takes SetupHook's corrected
  near/far test, not hook.cpp:11's; the page protection is not modelled. It requires
  CanSetUp, so the null-detour (failed page search) and null-code (length-only
  constructor) paths, where the source writes through or copies from nullptr, are
  excluded as for SetupHook.
- InlineHook.Hook.Toggle: enables through Enable, so the same corrected near/far test
  applies, and its enable branch has the same CanSetUp exclusions of the null-detour
  and null-code paths.
- Keybinds.Check: uses the 16-bit own modifier (OwnModifier, see Findings), not the 0
  the declared std::uint8_t table stores, so a bind on a modifier key matches with its
  own flag held.
- Keybinds.CheckAll: checks each bind with Check, so the same corrected own modifier
  applies.
- Keybinds.KeyBindList.CheckAt: its flags are Check's, with the corrected own modifier.
- Keybinds.KeyBindList.CheckKeybinds: its flags are CheckAll's, with the corrected own
  modifier.
- Steam.Hook: the module lookup, the pattern scans and the D3D12 object creation are
  inputs.
- Keybinds: ImGui's key values and names, GetKeyNameTextW and its UTF-8 conversion are
  inputs, one byte per char.
- Widgets.CustomBindKey: the drawing, the double-click ChangeType and the key-release
  Update of the Ex form are not modelled. The return value is modelled as the bound
  index.
- Startup: reading the process name and the window title is an input.
- UI rendering, the graphics backends, logging, Original::call and the glue files are
  not part of this model.
- InlineHook.Hook: originalBytes beyond the snapshot are unspecified in the model, as in
  C++, where the array is uninitialised there; no contract says anything about them.

## Findings

| source | as written | input that shows it | evidently intended | confidence | as-written member | corrected member |
|---|---|---|---|---|---|---|
| include/Mem/hook.cpp:11 | the near path is chosen when the entry distance fits in int32, but the trampoline's closing jump (line 18) uses a displacement that can overflow | address 0x1_0000_0010, detour page 0x1_8000_0000, 12 code bytes, 5 saved bytes: distance 0x7FFFFFEB fits, the back displacement -0x80000001 does not, and the return jump lands at detour + 0x8000_0015 | take the near path only when both displacements fit | not executed | InlineHook.NearPathAsWrittenMissesReturn | InlineHook.NearJumpsLand |
| src/misc/keybinds.h:15 | Modifiers::keys maps to std::uint8_t, so the ImGuiMod flags (0x1000 to 0x8000) are stored as 0 and Check's own modifier (line 100) is always 0 | a toggle bound to Left Ctrl with modifiers 0, on the frame Left Ctrl is pressed (ImGui reports Ctrl, 0x1000, held): the modifier test fails and the bool never toggles | a 16-bit table, so the own modifier is the key's flag | not executed | Keybinds.CtrlToggleAsWritten | Keybinds.ModifierKeyMatchesWithOwnFlag |
| src/ui/backend/Steam.h:55 | the backend tests use `graphicsAPI & X` on plain enum codes, so D3D12 (3) also passes the D3D9 (1) and D3D11 (2) tests | graphics API D3D12 with all pointers found: the D3D9 and D3D11 pointers are swapped as well | test each backend with equality | not executed | Steam.HookAsWrittenD3D12 | Steam.HookD3D12 |
