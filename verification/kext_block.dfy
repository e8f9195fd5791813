/**
  PatcherBlockKext: find a kext's start routine through its kmod_info
  record and replace its first six bytes with `mov eax, KMOD_RETURN_FAILURE; ret`.
 */
module KextBlock {
  import opened EfiTypes
  import opened Bytes
  import opened Patcher

  /** sizeof (KMOD_INFO_64_V1), the 4-byte packed kmod_info_64_v1 layout. */
  const KmodInfoSize: uint64 := 196

  /** Offset of the StartAddr field within KMOD_INFO_64_V1. */
  const KmodStartAddrOffset: nat := 180

  /** KMOD_RETURN_FAILURE (KERN_FAILURE). */
  const KmodReturnFailure: uint8 := 5

  /** The bytes of `mov eax, KMOD_RETURN_FAILURE` followed by `ret`. */
  const FailureStub: seq<uint8> := [0xB8, KmodReturnFailure, 0x00, 0x00, 0x00, 0xC3]

  /** KcFixupValue: strips kernel-collection tagging from a stored address. Foreign. */
  type Fixup = uint64 -> uint64

  /** The context names a kmod record at or above its virtual base (line 342). */
  predicate HasKmod(ctx: PatcherContext) {
    ctx.virtualKmod != 0 && ctx.virtualBase <= ctx.virtualKmod
  }

  /** The offset of the kmod record from the Mach header. */
  function KmodOffset(ctx: PatcherContext): uint64
    requires HasKmod(ctx)
  {
    ctx.virtualKmod - ctx.virtualBase
  }

  /** The whole kmod record lies within the file (line 350-351, without wrap-around). */
  predicate RecordInImage(ctx: PatcherContext)
    requires HasKmod(ctx)
  {
    KmodOffset(ctx) as int + KmodInfoSize as int <= |ctx.image|
  }

  /** The record's StartAddr field after fixup (line 348). */
  function StartAddr(ctx: PatcherContext, fixup: Fixup): uint64
    requires HasKmod(ctx) && RecordInImage(ctx)
  {
    fixup(ReadUInt64(ctx.image, KmodOffset(ctx) as nat + KmodStartAddrOffset))
  }

  /** The start routine is a usable address at or above the virtual base (line 352-353). */
  predicate StartAddrUsable(ctx: PatcherContext, fixup: Fixup)
    requires HasKmod(ctx) && RecordInImage(ctx)
  {
    StartAddr(ctx, fixup) != 0 && ctx.virtualBase <= StartAddr(ctx, fixup)
  }

  /** The start routine's file offset. */
  function StartOffset(ctx: PatcherContext, fixup: Fixup): uint64
    requires HasKmod(ctx) && RecordInImage(ctx) && StartAddrUsable(ctx, fixup)
  {
    StartAddr(ctx, fixup) - ctx.virtualBase
  }

  /**
    PatcherBlockKext. The status is decided by the guards in order; only
    success writes, and it writes exactly the six stub bytes.
   */
  function BlockKext(ctx: PatcherContext, fixup: Fixup): (r: Patched)
    ensures |r.image| == |ctx.image|
    ensures r.status in {Success, Unsupported, InvalidParameter, BufferTooSmall}
    ensures r.status != Success ==> r.image == ctx.image
    // no kmod record (the kernel), or one below the base
    ensures r.status == Unsupported <==> !HasKmod(ctx)
    // the record does not fit, or its start address is null or below the base
    ensures r.status == InvalidParameter <==>
      HasKmod(ctx) && (!RecordInImage(ctx) || !StartAddrUsable(ctx, fixup))
    // fewer than six bytes remain from the start routine to the end of the file
    ensures r.status == BufferTooSmall <==>
      && HasKmod(ctx) && RecordInImage(ctx) && StartAddrUsable(ctx, fixup)
      && StartOffset(ctx, fixup) as int + |FailureStub| > |ctx.image|
    ensures r.status == Success ==>
      && HasKmod(ctx) && RecordInImage(ctx) && StartAddrUsable(ctx, fixup)
      && StartOffset(ctx, fixup) as int + |FailureStub| <= |ctx.image|
      && r.image[StartOffset(ctx, fixup)..StartOffset(ctx, fixup) as int + |FailureStub|] == FailureStub
      && UnchangedOutside(ctx.image, r.image, StartOffset(ctx, fixup) as int, StartOffset(ctx, fixup) as int + |FailureStub|)
  {
    if ctx.virtualKmod == 0 || ctx.virtualBase > ctx.virtualKmod then
      Patched(Unsupported, ctx.image)
    else
      var kmodOffset := ctx.virtualKmod - ctx.virtualBase;
      var (overflow, recordEnd) := OverflowAddU64(kmodOffset, KmodInfoSize);
      if overflow || recordEnd > FileSize(ctx) then
        Patched(InvalidParameter, ctx.image)
      else
        var startAddr := fixup(ReadUInt64(ctx.image, kmodOffset + KmodStartAddrOffset));
        if startAddr == 0 || ctx.virtualBase > startAddr then
          Patched(InvalidParameter, ctx.image)
        else
          var startOffset := startAddr - ctx.virtualBase;
          // UINT32 `FileSize - 6`, promoted to UINT64 for the comparison
          if startOffset > Sub32(FileSize(ctx), 6) then
            Patched(BufferTooSmall, ctx.image)
          else
            Patched(Success, Overwrite(ctx.image, startOffset, FailureStub))
  }

  /**
    Line 358's UINT32 subtraction cannot wrap once line 350 has passed:
    the record alone makes the file longer than the stub.
   */
  lemma StubBoundNeverWraps(ctx: PatcherContext)
    requires HasKmod(ctx) && RecordInImage(ctx)
    ensures Sub32(FileSize(ctx), 6) == FileSize(ctx) - 6
  {
  }

  /**
    A file shorter than the stub would wrap at line 358 and let any start
    offset through; such a file is always rejected earlier.
   */
  lemma ShortFileRejectedBeforeStubCheck(ctx: PatcherContext, fixup: Fixup)
    requires |ctx.image| < |FailureStub|
    ensures BlockKext(ctx, fixup).status in {Unsupported, InvalidParameter}
    ensures Sub32(FileSize(ctx), 6) >= UINT32_LIMIT - 6
  {
  }

  /** A context fresh from the raw buffer setup has no kmod and cannot be blocked. */
  lemma FreshContextUnsupported(buffer: Buffer, is32Bit: bool, reader: MachO.MachoReader, fixup: Fixup)
    requires |buffer| > 0
    requires InitContextFromBuffer(buffer, is32Bit, reader).Ok?
    ensures BlockKext(InitContextFromBuffer(buffer, is32Bit, reader).value, fixup) == Patched(Unsupported, buffer)
  {
  }
}
