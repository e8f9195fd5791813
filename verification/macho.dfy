/**
  What the kext patcher learns from the Mach-O reader. The reader itself
  is foreign code; its answers are inputs to the model.
 */
module MachO {
  import opened Wrappers
  import opened EfiTypes

  /** A segment command's address fields, widened to UINT64. */
  datatype Segment = Segment(virtualAddress: uint64, fileOffset: uint64)

  /** A 32-bit section header's address fields. */
  datatype Section = Section(address: uint32, offset: uint32)

  /**
    One symbol table entry: its name if the string table yields one, and
    its file offset if the symbol has a concrete location.
   */
  datatype Symbol = Symbol(name: Option<string>, fileOffset: Option<uint32>)

  /** The answers of the Mach-O queries for one initialised image. */
  datatype MachInfo = MachInfo(
    // the segment named "__TEXT", if any
    textSegment: Option<Segment>,
    // the "__text" section of the unnamed segment (32-bit MH_OBJECT), if any
    objectTextSection: Option<Section>,
    // the classic symbol table, in index order
    symbols: seq<Symbol>,
    // translation of a virtual address to a file offset, if it lies in the image
    directFileOffset: uint64 -> Option<uint32>)

  /** The reader's entry points that the context setup calls. */
  datatype MachoReader = MachoReader(
    // MachoInitializeContext: None when the buffer is not a supported Mach-O
    initialize: (seq<uint8>, bool) -> Option<MachInfo>,
    // InternalConnectExternalSymtab: the status it returns for this buffer
    connectExternalSymtab: seq<uint8> -> Status)

  /** A text segment the patcher can derive its virtual base from. */
  predicate UsableSegment(s: Option<Segment>) {
    s.Some? && s.value.virtualAddress >= s.value.fileOffset
  }

  /**
    Every file offset the reader hands out lies within the first
    `fileSize` bytes: the reader only reports offsets inside sections of
    the image it validated.
   */
  ghost predicate OffsetsWithin(info: MachInfo, fileSize: nat) {
    && (forall i | 0 <= i < |info.symbols| ::
          info.symbols[i].fileOffset.Some? ==> info.symbols[i].fileOffset.value <= fileSize)
    && (forall a: uint64 ::
          info.directFileOffset(a).Some? ==> info.directFileOffset(a).value <= fileSize)
  }
}
