/** The records of include/binforge/binforge.h that several components share, and the
    validator of src/validator.cc. */
module Image {
  import opened Base

  datatype SectionKind =
    | UnknownSection | ProgramBits | NoBits | StringTable | SymbolTable | DynamicSymbols
    | Relocations | RelocationAddends | DebugSection | Imports | Exports | Resources | Unwind | Notes

  datatype SymbolBinding = Local | Global | Weak | ImportSymbol | ExportSymbol

  datatype SymbolKind =
    | UnknownSymbol | ObjectSymbol | FunctionSymbol | SectionSymbol | FileSymbol | CommonSymbol | TlsObject

  datatype RelocationKind =
    | NoRelocation | Absolute32 | Absolute64 | Relative32 | Relative64 | PcRelative32
    | GotRelative | PltRelative | High16 | Low16

  datatype Section = Section(
    index: U32, name: Text, kind: SectionKind, fileOffset: U64, fileSize: U64,
    virtualAddress: U64, memorySize: U64, alignment: U64, link: U32, info: U32, permissions: Byte)

  datatype Segment = Segment(
    index: U32, fileOffset: U64, fileSize: U64, virtualAddress: U64, memorySize: U64,
    alignment: U64, permissions: Byte, sections: seq<U32>)

  datatype Symbol = Symbol(
    index: U32, name: Text, binding: SymbolBinding, kind: SymbolKind, sectionIndex: U32,
    value: U64, size: U64, library: Text)

  /** The addend is kept as the 64-bit pattern that the code casts it to. */
  datatype Relocation = Relocation(
    kind: RelocationKind, targetSection: U32, symbolIndex: U32, offset: U64, addend: U64, width: Byte)

  datatype Import = Import(library: Text, name: Text, ordinal: U64, slotAddress: U64, weak: bool)

  datatype BinaryImage = BinaryImage(
    imageBase: U64, entryPoint: U64, wordSize: Byte, byteOrder: ByteOrder,
    sections: seq<Section>, segments: seq<Segment>, symbols: seq<Symbol>,
    relocations: seq<Relocation>, imports: seq<Import>, fileData: Option<seq<Byte>>)
  {
    /** BinaryImage::symbol: the symbol with this index, if there is one. */
    function SymbolAt(i: U32): Option<Symbol>
    {
      if i < |symbols| then Some(symbols[i]) else None
    }
  }

  /** Where an image goes: the base asked for, or its own when none is. */
  function LoadBase(requested: U64, originalBase: U64): U64
  {
    if requested != 0 then requested else originalBase
  }

  // ----- the validator -----

  /** One section's error: its index, its file range or its alignment. */
  function SectionError(s: Section, n: nat, fileSize: U64): Option<ErrorCode>
  {
    if s.index != n then Some(InvalidSection)
    else if !s.kind.NoBits? && !RangeInside(s.fileOffset, s.fileSize, fileSize) then Some(FileRangeOverflow)
    else if BadAlignment(s.alignment) then Some(InvalidAlignment)
    else None
  }

  function SegmentError(s: Segment, fileSize: U64): Option<ErrorCode>
  {
    if s.fileSize > s.memorySize || !RangeInside(s.fileOffset, s.fileSize, fileSize) then Some(InvalidSegment)
    else if CheckedAdd(s.virtualAddress, s.memorySize).None? then Some(AddressOverflow)
    else None
  }

  function FirstSectionError(sections: seq<Section>, n: nat, fileSize: U64): Option<ErrorCode>
    decreases |sections|
  {
    if sections == [] then None
    else
      var e := SectionError(sections[0], n, fileSize);
      if e.Some? then e else FirstSectionError(sections[1..], n + 1, fileSize)
  }

  function FirstSegmentError(segments: seq<Segment>, fileSize: U64): Option<ErrorCode>
  {
    if segments == [] then None
    else
      var e := SegmentError(segments[0], fileSize);
      if e.Some? then e else FirstSegmentError(segments[1..], fileSize)
  }

  /** BinaryValidator::validate: the first error in the report, or None for a valid image. */
  function FirstError(limits: Limits, image: BinaryImage): Option<ErrorCode>
  {
    if image.fileData.None? then Some(InvalidHeader)
    else
      var size := |image.fileData.value|;
      if size > limits.maxFileSize || |image.sections| > limits.maxSections
         || |image.segments| > limits.maxSegments || |image.symbols| > limits.maxSymbols
         || |image.relocations| > limits.maxRelocations
      then Some(ResourceLimit)
      else
        var s := FirstSectionError(image.sections, 0, size);
        if s.Some? then s
        else
          var g := FirstSegmentError(image.segments, size);
          if g.Some? then g
          else if exists n :: 0 <= n < |image.symbols| && image.symbols[n].index != n then Some(InvalidSymbol)
          else if exists n :: 0 <= n < |image.relocations| && image.relocations[n].symbolIndex >= |image.symbols|
                              && image.relocations[n].symbolIndex != 0
          then Some(InvalidSymbol)
          else None
  }

  lemma {:induction false} SegmentsChecked(segments: seq<Segment>, fileSize: U64)
    ensures FirstSegmentError(segments, fileSize).None? <==>
            forall i :: 0 <= i < |segments| ==> SegmentError(segments[i], fileSize).None?
  {
    if segments != [] {
      SegmentsChecked(segments[1..], fileSize);
      assert forall i :: 0 < i < |segments| ==> segments[i] == segments[1..][i - 1];
      assert forall i :: 0 <= i < |segments[1..]| ==> segments[1..][i] == segments[i + 1];
    }
  }

  lemma {:induction false} SectionsChecked(sections: seq<Section>, n: nat, fileSize: U64)
    ensures FirstSectionError(sections, n, fileSize).None? <==>
            forall i :: 0 <= i < |sections| ==> SectionError(sections[i], n + i, fileSize).None?
    decreases |sections|
  {
    if sections != [] {
      SectionsChecked(sections[1..], n + 1, fileSize);
      assert forall i :: 0 < i < |sections| ==> sections[i] == sections[1..][i - 1];
      assert forall i :: 0 <= i < |sections[1..]| ==> sections[1..][i] == sections[i + 1];
    }
  }

  /** The record is numbered by its place, its bytes are in the file unless it has none there, and its
      alignment is a power of two. */
  ghost predicate SectionValid(s: Section, n: nat, fileSize: nat)
  {
    s.index == n && (s.kind == NoBits || s.fileOffset + s.fileSize <= fileSize) && IsPowerOfTwo(s.alignment)
  }

  /** The segment's bytes are in the file, it is no larger there than in memory, and it ends below the end of
      the address space. */
  predicate SegmentValid(s: Segment, fileSize: nat)
  {
    s.fileSize <= s.memorySize && s.fileOffset + s.fileSize <= fileSize && s.virtualAddress + s.memorySize < TWO64
  }

  predicate WithinLimits(limits: Limits, image: BinaryImage, fileSize: nat)
  {
    && fileSize <= limits.maxFileSize && |image.sections| <= limits.maxSections
    && |image.segments| <= limits.maxSegments && |image.symbols| <= limits.maxSymbols
    && |image.relocations| <= limits.maxRelocations
  }

  lemma SectionErrorMeans(s: Section, n: nat, fileSize: U64)
    ensures SectionError(s, n, fileSize).None? <==> SectionValid(s, n, fileSize)
  {
    AlignmentGuard(s.alignment);
  }

  /** Why a section is turned away: its number, else its bytes in the file, else its alignment. */
  ghost predicate SectionFault(s: Section, n: nat, fileSize: nat, code: ErrorCode)
  {
    match code
    case InvalidSection => s.index != n
    case FileRangeOverflow => s.index == n && s.kind != NoBits && s.fileOffset + s.fileSize > fileSize
    case InvalidAlignment =>
      s.index == n && (s.kind == NoBits || s.fileOffset + s.fileSize <= fileSize) && !IsPowerOfTwo(s.alignment)
    case _ => false
  }

  lemma SectionFaultMeans(s: Section, n: nat, fileSize: U64, code: ErrorCode)
    ensures SectionError(s, n, fileSize) == Some(code) <==> SectionFault(s, n, fileSize, code)
  {
    AlignmentGuard(s.alignment);
  }

  /** Why a segment is turned away: more bytes than memory or outside the file, else its end in memory. */
  predicate SegmentFault(s: Segment, fileSize: nat, code: ErrorCode)
  {
    match code
    case InvalidSegment => s.fileSize > s.memorySize || s.fileOffset + s.fileSize > fileSize
    case AddressOverflow =>
      && s.fileSize <= s.memorySize && s.fileOffset + s.fileSize <= fileSize
      && s.virtualAddress + s.memorySize >= TWO64
    case _ => false
  }

  lemma SegmentFaultMeans(s: Segment, fileSize: U64, code: ErrorCode)
    ensures SegmentError(s, fileSize) == Some(code) <==> SegmentFault(s, fileSize, code)
  {
  }

  /** The first section with a fault decides the error. */
  ghost predicate FaultAtSection(sections: seq<Section>, n: nat, fileSize: nat, code: ErrorCode, i: nat)
  {
    && i < |sections| && SectionFault(sections[i], n + i, fileSize, code)
    && forall j {:trigger sections[j]} :: 0 <= j < i ==> SectionValid(sections[j], n + j, fileSize)
  }

  lemma {:induction false} FirstSectionFault(sections: seq<Section>, n: nat, fileSize: U64, code: ErrorCode, i: nat)
    requires FaultAtSection(sections, n, fileSize, code, i)
    ensures FirstSectionError(sections, n, fileSize) == Some(code)
    decreases i
  {
    SectionErrorMeans(sections[0], n, fileSize);
    SectionFaultMeans(sections[0], n, fileSize, code);
    if i > 0 { FirstSectionFault(sections[1..], n + 1, fileSize, code, i - 1); }
  }

  predicate FaultAtSegment(segments: seq<Segment>, fileSize: nat, code: ErrorCode, i: nat)
  {
    && i < |segments| && SegmentFault(segments[i], fileSize, code)
    && forall j {:trigger segments[j]} :: 0 <= j < i ==> SegmentValid(segments[j], fileSize)
  }

  lemma {:induction false} FirstSegmentFault(segments: seq<Segment>, fileSize: U64, code: ErrorCode, i: nat)
    requires FaultAtSegment(segments, fileSize, code, i)
    ensures FirstSegmentError(segments, fileSize) == Some(code)
    decreases i
  {
    SegmentFaultMeans(segments[0], fileSize, code);
    if i > 0 { FirstSegmentFault(segments[1..], fileSize, code, i - 1); }
  }

  /** The validator reports the first fault in this order: bytes missing, limits, sections, segments, symbols
      and relocations. Together with ValidMeans this is its verdict on every image. */
  lemma FaultsReported(limits: Limits, image: BinaryImage, code: ErrorCode, i: nat)
    ensures image.fileData.None? ==> FirstError(limits, image) == Some(InvalidHeader)
    ensures image.fileData.Some? ==>
              var size := |image.fileData.value|;
              && (!WithinLimits(limits, image, size) ==> FirstError(limits, image) == Some(ResourceLimit))
              && (WithinLimits(limits, image, size) ==>
                    && (FaultAtSection(image.sections, 0, size, code, i) ==> FirstError(limits, image) == Some(code))
                    && (FirstSectionError(image.sections, 0, size).None? ==>
                          && (FaultAtSegment(image.segments, size, code, i) ==>
                                FirstError(limits, image) == Some(code))
                          && (FirstSegmentError(image.segments, size).None? ==>
                                FirstError(limits, image) in {None, Some(InvalidSymbol)})))
  {
    if image.fileData.Some? && |image.fileData.value| <= limits.maxFileSize {
      var size := |image.fileData.value|;
      if FaultAtSection(image.sections, 0, size, code, i) {
        FirstSectionFault(image.sections, 0, size, code, i);
      } else if FaultAtSegment(image.segments, size, code, i) {
        FirstSegmentFault(image.segments, size, code, i);
      }
    }
  }

  /** The validator accepts an image exactly when it keeps its bytes, keeps within the limits, every section and
      segment is valid, and symbols and relocations are numbered consistently. */
  lemma ValidMeans(limits: Limits, image: BinaryImage)
    ensures FirstError(limits, image).None? <==>
            && image.fileData.Some? && |image.fileData.value| < TWO64
            && var size := |image.fileData.value|;
               && WithinLimits(limits, image, size)
               && (forall i {:trigger image.sections[i]} :: 0 <= i < |image.sections| ==>
                     SectionValid(image.sections[i], i, size))
               && (forall i {:trigger image.segments[i]} :: 0 <= i < |image.segments| ==>
                     SegmentValid(image.segments[i], size))
               && (forall i {:trigger image.symbols[i]} :: 0 <= i < |image.symbols| ==> image.symbols[i].index == i)
               && (forall i {:trigger image.relocations[i]} :: 0 <= i < |image.relocations| ==>
                     image.relocations[i].symbolIndex == 0 || image.relocations[i].symbolIndex < |image.symbols|)
  {
    if image.fileData.Some? && |image.fileData.value| <= limits.maxFileSize {
      var size := |image.fileData.value|;
      SectionsChecked(image.sections, 0, size);
      SegmentsChecked(image.segments, size);
      forall i | 0 <= i < |image.sections|
        ensures SectionError(image.sections[i], i, size).None? <==> SectionValid(image.sections[i], i, size)
      {
        SectionErrorMeans(image.sections[i], i, size);
      }
    }
  }
}
