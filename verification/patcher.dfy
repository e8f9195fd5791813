/**
  The patcher context and its three constructors: from a prelinked
  kernel's catalogue, from an mkext archive, and from a raw buffer.
 */
module Patcher {
  import opened Wrappers
  import opened EfiTypes
  import opened MachO

  /** A buffer whose size fits the UINT32 size parameter. */
  type Buffer = b: seq<uint8> | |b| < UINT32_LIMIT

  /**
    PATCHER_CONTEXT. `image` is the borrowed buffer with the Mach header at
    offset 0; addresses into it are offsets from the header.
   */
  datatype PatcherContext = PatcherContext(
    image: Buffer,
    mach: MachInfo,
    is32Bit: bool,
    virtualBase: uint64,
    virtualKmod: uint64,
    kxldState: Option<seq<uint8>>,
    kxldStateSize: uint32)

  /** MachoGetFileSize: the size the context was initialised with. */
  function FileSize(ctx: PatcherContext): uint32 {
    |ctx.image|
  }

  /** The reader's offsets for this context all lie within its image. */
  ghost predicate SymbolOffsetsInImage(ctx: PatcherContext) {
    OffsetsWithin(ctx.mach, |ctx.image|)
  }

  /** The status of an operation and the buffer it leaves behind. */
  datatype Patched = Patched(status: Status, image: seq<uint8>)

  /**
    The virtual base as line 137 computes it: the file offset when the
    virtual address is not below it, otherwise the UINT64 difference
    VA - FO, which wraps. This is neither min(VA, FO) nor VA - FO in
    general.
   */
  function VirtualBaseOf(virtualAddress: uint64, fileOffset: uint64): (r: uint64)
    // ordered fields: the file offset, which is min(VA, FO)
    ensures virtualAddress >= fileOffset ==> r == fileOffset
    // VA below FO: the wrapped difference, strictly above VA, so not min(VA, FO)
    ensures virtualAddress < fileOffset ==> r == UINT64_LIMIT + virtualAddress - fileOffset && r > virtualAddress
    // the base lies at or below the virtual address exactly when the fields are ordered
    ensures r <= virtualAddress <==> virtualAddress >= fileOffset
  {
    if virtualAddress < fileOffset then Sub64(virtualAddress, fileOffset) else fileOffset
  }

  /**
    The (virtual address, file offset) pair the context setup derives
    its base from, or None when the image offers none (lines 102-134).
   */
  function TextRegion(info: MachInfo, is32Bit: bool): (r: Option<(uint64, uint64)>)
    // only the 32-bit __text fallback can hand line 137 a VA below its FO
    ensures r.Some? && r.value.0 < r.value.1 ==>
      is32Bit && !UsableSegment(info.textSegment) && info.objectTextSection.Some?
    // a 64-bit region always comes from an ordered __TEXT segment
    ensures r.Some? && !is32Bit ==> r.value.0 >= r.value.1 && UsableSegment(info.textSegment)
  {
    if UsableSegment(info.textSegment) then
      Some((info.textSegment.value.virtualAddress, info.textSegment.value.fileOffset))
    else if !is32Bit then
      None
    else
      match info.objectTextSection
      case None => None
      case Some(s) => Some((s.address as uint64, s.offset as uint64))
  }

  /** PatcherInitContextFromBuffer. The firmware asserts a non-empty buffer. */
  function InitContextFromBuffer(buffer: Buffer, is32Bit: bool, reader: MachoReader): (r: Result<PatcherContext>)
    requires |buffer| > 0
    // an unsupported Mach-O is rejected first
    ensures reader.initialize(buffer, is32Bit).None? ==> r == Err(InvalidParameter)
    // 64-bit: no __TEXT segment, or one whose VA is below its file offset
    ensures var m := reader.initialize(buffer, is32Bit);
      (m.Some? && !is32Bit && !UsableSegment(m.value.textSegment)) ==> r == Err(NotFound)
    // 32-bit: the same, and no __text section of the unnamed segment to fall back to
    ensures var m := reader.initialize(buffer, is32Bit);
      (m.Some? && is32Bit && !UsableSegment(m.value.textSegment) && m.value.objectTextSection.None?) ==>
        r == Err(NotFound)
    // a failure to connect the external symbol table propagates (64-bit only)
    ensures var m := reader.initialize(buffer, is32Bit);
      (m.Some? && !is32Bit && UsableSegment(m.value.textSegment) && IsError(reader.connectExternalSymtab(buffer))) ==>
        r == Err(reader.connectExternalSymtab(buffer))
    ensures r.Err? ==> IsError(r.error)
    ensures r.Ok? <==>
      && reader.initialize(buffer, is32Bit).Some?
      && TextRegion(reader.initialize(buffer, is32Bit).value, is32Bit).Some?
      && (is32Bit || !IsError(reader.connectExternalSymtab(buffer)))
    // a fresh context: no kmod, no KXLD state, the buffer and flag as given
    ensures r.Ok? ==>
      && r.value.image == buffer
      && r.value.mach == reader.initialize(buffer, is32Bit).value
      && r.value.is32Bit == is32Bit
      && r.value.virtualKmod == 0
      && r.value.kxldState.None?
      && r.value.kxldStateSize == 0
    // with a usable __TEXT segment the base is its file offset, at or below its VA
    ensures r.Ok? && UsableSegment(r.value.mach.textSegment) ==>
      && r.value.virtualBase == r.value.mach.textSegment.value.fileOffset
      && r.value.virtualBase <= r.value.mach.textSegment.value.virtualAddress
    // otherwise (32-bit only) the base comes from the section through line 137
    ensures r.Ok? && !UsableSegment(r.value.mach.textSegment) ==>
      && is32Bit
      && r.value.virtualBase == VirtualBaseOf(
           r.value.mach.objectTextSection.value.address as uint64,
           r.value.mach.objectTextSection.value.offset as uint64)
  {
    match reader.initialize(buffer, is32Bit)
    case None => Err(InvalidParameter)
    case Some(info) =>
      match TextRegion(info, is32Bit)
      case None => Err(NotFound)
      case Some(region) =>
        var ctx := PatcherContext(
          image := buffer,
          mach := info,
          is32Bit := is32Bit,
          virtualBase := VirtualBaseOf(region.0, region.1),
          virtualKmod := 0,
          kxldState := None,
          kxldStateSize := 0);
        if !is32Bit && IsError(reader.connectExternalSymtab(buffer)) then
          Err(reader.connectExternalSymtab(buffer))
        else
          Ok(ctx)
  }

  /** InternalCachedPrelinkedKext: the catalogue of contexts built for a prelinked kernel. */
  type PrelinkedCatalogue = string -> Option<PatcherContext>

  /** PatcherInitContextFromPrelinked: a miss is NotFound, a hit is a copy of the stored context. */
  function InitContextFromPrelinked(catalogue: PrelinkedCatalogue, name: string): (r: Result<PatcherContext>)
    ensures catalogue(name).None? ==> r == Err(NotFound)
    ensures catalogue(name).Some? ==> r == Ok(catalogue(name).value)
  {
    match catalogue(name)
    case None => Err(NotFound)
    case Some(ctx) => Ok(ctx)
  }

  /** Where a kext's binary lies inside the mkext archive. */
  datatype MkextKext = MkextKext(binaryOffset: uint32, binarySize: uint32)

  /** An mkext archive: its bytes, its bit width and its name catalogue (InternalCachedMkextKext). */
  datatype Mkext = Mkext(bytes: seq<uint8>, is32Bit: bool, lookup: string -> Option<MkextKext>)

  /** The catalogue entry for `name`, if any, is a non-empty range of the archive. */
  predicate EntryInArchive(mkext: Mkext, name: string) {
    mkext.lookup(name).Some? ==>
      && mkext.lookup(name).value.binarySize > 0
      && mkext.lookup(name).value.binaryOffset as int + mkext.lookup(name).value.binarySize as int <= |mkext.bytes|
  }

  /**
    PatcherInitContextFromMkext: a miss is NotFound; a hit runs the raw
    buffer setup on the kext's byte range with the archive's bit width.
   */
  function InitContextFromMkext(mkext: Mkext, name: string, reader: MachoReader): (r: Result<PatcherContext>)
    requires EntryInArchive(mkext, name)
    ensures mkext.lookup(name).None? ==> r == Err(NotFound)
    ensures mkext.lookup(name).Some? ==>
      var k := mkext.lookup(name).value;
      r == InitContextFromBuffer(mkext.bytes[k.binaryOffset..k.binaryOffset as int + k.binarySize as int], mkext.is32Bit, reader)
  {
    match mkext.lookup(name)
    case None => Err(NotFound)
    case Some(k) =>
      InitContextFromBuffer(mkext.bytes[k.binaryOffset..k.binaryOffset as int + k.binarySize as int], mkext.is32Bit, reader)
  }
}
