# Kext patcher decision logic

A Dafny model of the kext patcher of OpenCore's kernel library
(`Library/OcAppleKernelLib/KextPatcher.c`): how a patcher context is set up
from a prelinked kernel, an mkext archive or a raw Mach-O buffer; how a
symbol name is resolved to a file offset through the classic symbol table or
the KXLD state; how a generic patch is anchored, clamped and applied; and how
a kext is blocked by overwriting its start routine with
`mov eax, KMOD_RETURN_FAILURE; ret`.

The image is a byte sequence with the Mach header at offset 0, so every
pointer of the C code (`Base`, `*Address`, `PatchAddr`) is an offset into it
and `MachoGetFileSize` is its length. UINT32 and UINT64 are subset types of
`int`; every place where the C wraps is written out (`Sub32`, `Sub64`,
`OverflowAddU64`). All operations are pure functions returning a status and
the buffer afterwards (`Patched`) or a `Result`.

The Mach-O reader is foreign: its answers are a `MachInfo` value (the
`__TEXT` segment, the unnamed segment's `__text` section, the symbol table as
a sequence of (name, file offset) entries, and a virtual-address-to-offset
translation) produced by an uninterpreted `initialize` function.
`InternalKxldSolveSymbol`, `KcFixupValue` and `ApplyPatch` are uninterpreted
function parameters.

Two behaviours of the code worth knowing:

- Line 95 returns InvalidParameter for an unsupported Mach-O.
- Line 137 computes `VA < FO ? VA - FO : FO` in UINT64. That is the file
  offset, which is min(VA, FO), when VA >= FO; otherwise it wraps to
  2^64 + VA - FO, which lies above VA (`Patcher.VirtualBaseOf`). Only the
  32-bit `__text` fallback can reach the wrapping branch
  (`Patcher.TextRegion`); the source marks the line FIXME.

Files: `wrappers.dfy` (Option), `efi_types.dfy` (integer widths, wrapping
arithmetic, EFI status), `bytes.dfy` (little-endian reads, overwrites),
`macho.dfy` (the reader's answers), `patcher.dfy` (context and its setup),
`symbol_lookup.dfy`, `generic_patcher.dfy`, `kext_block.dfy`.

## Model

| member | source | states |
|---|---|---|
| EfiTypes.Sub32 | Library/OcAppleKernelLib/KextPatcher.c:269 | UINT32 subtraction is the difference when it fits and 2^32 minus the shortfall when it wraps |
| EfiTypes.Sub64 | Library/OcAppleKernelLib/KextPatcher.c:137 | UINT64 subtraction is the difference when it fits and 2^64 minus the shortfall when it wraps |
| EfiTypes.OverflowAddU64 | Library/OcAppleKernelLib/KextPatcher.c:350 | the stored sum is the true sum modulo 2^64; the overflow flag is set exactly when that sum is below the first operand; without overflow the sum is exact |
| Bytes.LittleEndian | Library/OcAppleKernelLib/KextPatcher.c:348 | a little-endian field of n bytes is below 256^n and its low byte is the first byte, so an 8-byte field is a UINT64 |
| Bytes.Overwrite | Library/OcAppleKernelLib/KextPatcher.c:282 | CopyMem: the target range becomes the data verbatim, the length is kept and no byte outside the range changes |
| Bytes.OverwriteIdempotent | Library/OcAppleKernelLib/KextPatcher.c:282 | copying the same bytes to the same place twice gives the buffer a single copy gives |
| Patcher.VirtualBaseOf | Library/OcAppleKernelLib/KextPatcher.c:137 | when VA >= FO the virtual base is the file offset, which is min(VA, FO); when VA < FO it is the wrapped 2^64 + VA - FO, strictly above VA; the base is at or below VA exactly when VA >= FO |
| Patcher.TextRegion | Library/OcAppleKernelLib/KextPatcher.c:102-134 | a region whose VA is below its FO can only come from the 32-bit fallback to the unnamed segment's `__text` section; a 64-bit region always comes from a `__TEXT` segment with VA >= FO |
| Patcher.InitContextFromBuffer | Library/OcAppleKernelLib/KextPatcher.c:66-156 | unsupported Mach-O gives InvalidParameter; no usable text region gives NotFound; a 64-bit symtab connection error propagates; success holds exactly otherwise, with the given buffer and width, VirtualKmod 0, no KXLD state, size 0, and base equal to the `__TEXT` file offset (at or below its VA) or line 137 on the section |
| Patcher.InitContextFromPrelinked | Library/OcAppleKernelLib/KextPatcher.c:30-46 | a catalogue miss is NotFound; a hit returns the stored context unchanged |
| Patcher.InitContextFromMkext | Library/OcAppleKernelLib/KextPatcher.c:48-63 | a catalogue miss is NotFound; a hit is the raw-buffer setup on the kext's byte range with the archive's bit width |
| SymbolLookup.FirstMatch | Library/OcAppleKernelLib/KextPatcher.c:172-237 | the index found is a matching entry with no matching entry before it; no index means no entry matches |
| SymbolLookup.KxldFallback | Library/OcAppleKernelLib/KextPatcher.c:183-215 | succeeds exactly when KXLD state exists, its address is nonzero, below MAX_UINT32 in 32-bit mode, and translates to an offset, which is returned; every failure is NotFound |
| SymbolLookup.GetSymbolAddress | Library/OcAppleKernelLib/KextPatcher.c:158-241 | the first matching entry decides (its offset, or InvalidParameter without one); a non-empty table without a match is NotFound; only an empty table consults KXLD; InvalidParameter only from a matched entry without a location |
| SymbolLookup.FirstMatchIgnoresLaterEntries | Library/OcAppleKernelLib/KextPatcher.c:218-236 | replacing every entry after the first match leaves the found index unchanged |
| SymbolLookup.GetSymbolAddressIgnoresLaterEntries | Library/OcAppleKernelLib/KextPatcher.c:218-236 | replacing every entry after the first match leaves the lookup result unchanged |
| SymbolLookup.ScanSymbolTable | Library/OcAppleKernelLib/KextPatcher.c:172-240 | the index-by-index loop with its early exits computes exactly the declarative lookup result |
| GenericPatcher.ResolveAnchor | Library/OcAppleKernelLib/KextPatcher.c:254-270 | without an anchor the window is the whole file; a failed anchor lookup returns that very status; a found anchor starts the window at its offset, and the window always ends at the end of the file (the UINT32 subtraction does not wrap) |
| GenericPatcher.AnchorWithinImage | Library/OcAppleKernelLib/KextPatcher.c:269 | a resolved anchor offset is at most the file size, given the reader's offsets lie in the image |
| GenericPatcher.ClampToLimit | Library/OcAppleKernelLib/KextPatcher.c:286-288 | the size never grows, never exceeds a nonzero Limit, is either the size or the Limit, and Limit 0 keeps the size |
| GenericPatcher.SearchWindow | Library/OcAppleKernelLib/KextPatcher.c:286-288 | the find-mode window starts at the anchor, is no larger than the anchored window nor a nonzero Limit, is either the anchored size or the Limit, and Limit 0 keeps the anchored size |
| GenericPatcher.ApplyGenericPatch | Library/OcAppleKernelLib/KextPatcher.c:243-326 | anchor failure returns its status with the buffer unchanged; unconditional mode is NotFound and unchanged when the window is shorter than the patch, else Success with exactly the patch range set to Replace; find mode is Success iff ApplyPatch's count is nonzero (else NotFound), the window is ApplyPatch's output and nothing outside it changes |
| GenericPatcher.UnconditionalIdempotent | Library/OcAppleKernelLib/KextPatcher.c:272-284 | applying an unconditional patch to its own result gives the same status and buffer again |
| GenericPatcher.UnconditionalIgnoresSearchFields | Library/OcAppleKernelLib/KextPatcher.c:272-284 | without Find, ReplaceMask, Limit, Count, Skip and ApplyPatch do not affect the outcome |
| KextBlock.BlockKext | Library/OcAppleKernelLib/KextPatcher.c:328-376 | Unsupported iff no kmod or kmod below base; InvalidParameter iff the record does not fit the file or its fixed-up start is 0 or below base; BufferTooSmall iff fewer than six bytes follow the start offset; success writes exactly B8 05 00 00 00 C3 there; every failure leaves the buffer unchanged |
| KextBlock.StubBoundNeverWraps | Library/OcAppleKernelLib/KextPatcher.c:350-358 | once the record fits the file, the UINT32 `FileSize - 6` is the true difference |
| KextBlock.ShortFileRejectedBeforeStubCheck | Library/OcAppleKernelLib/KextPatcher.c:342-358 | a file under six bytes would make `FileSize - 6` wrap near 2^32, but such a file is always rejected as Unsupported or InvalidParameter first |
| KextBlock.FreshContextUnsupported | Library/OcAppleKernelLib/KextPatcher.c:138 | a context just built from a raw buffer has VirtualKmod 0, so blocking it is Unsupported and writes nothing |

## Left out

- Mach-O parsing and queries (`MachoInitializeContext`, segment, section and symbol getters, `MachoSymbolGet*FileOffset*`, `MachoGetFileSize`): foreign library code, supplied as the `MachInfo` value an uninterpreted reader returns. The 32-bit and 64-bit getters share one shape; `MachoSymbolGetDirectFileOffset32` receives the address already known to be below MAX_UINT32, so one translation function serves both.
- The reader's answers are a snapshot taken at setup: the model's symbol lookup does not read the buffer, so patches never change which symbols resolve. `MachInfo.symbols` stands for the symbol table as it is after `InternalConnectExternalSymtab`, which line 143 hands the same Mach context that lines 179-181 later scan.
- `InternalConnectExternalSymtab`: modelled only as the status it returns. Line 143 passes it only the Mach context, not `Context->KxldState`, so the KXLD state keeps the NULL set at line 139 and a fresh context has none.
- `InternalKxldSolveSymbol`, `KcFixupValue`, `ApplyPatch`: uninterpreted function parameters. ApplyPatch's wildcard matching, masks, skip and count are not modelled; it is only assumed to return a window of the length it was given.
- GenericPatcher.ApplyGenericPatch: requires that every file offset the reader reports lies within the image (`SymbolOffsetsInImage`). This is an assumption about the Mach-O reader, whose offset functions are not part of this model; without it the C would read and write outside the buffer after the line-269 subtraction wrapped.
- `PatcherInitContextFromPrelinked`, `PatcherInitContextFromMkext`: the prelinked and mkext catalogues are functions from names to an optional entry; their container formats are not part of this model. The mkext entry is required to lie inside the archive and be non-empty, as the catalogue guarantees and the raw-buffer setup asserts.
- Patcher.InitContextFromBuffer: on a failure after line 93 the C has already written parts of the caller's context; the model returns only the error.
- The read of `StartAddr` at line 348 happens before the bounds check at line 350 in the C; the model checks first and reads only in bounds. The outcome is the same because every failure of that check is InvalidParameter.
- `sizeof (KMOD_INFO_64_V1)` is taken as 196 bytes with StartAddr at byte 180 (the 4-byte packed kmod_info_64_v1 layout) and `KMOD_RETURN_FAILURE` as 5; the header defining them is not part of this model.
- Line 358's UINT32 wrap of `FileSize - 6` is modelled, not excluded by a precondition; `KextBlock.StubBoundNeverWraps` shows it cannot happen once line 350 passes.
- DEBUG logging, comment strings and the partial-count diagnostic (lines 310-319): output only, no effect on results.
- The EFI status space is reduced to the codes this file produces plus `OtherError` for codes a collaborator passes through; EFI warning codes are not modelled.
