/** AddressTranslator::virtual_to_file and file_to_virtual of src/symbol_index.cc. */
module Translation {
  import opened Base
  import opened Builder
  import opened Image
  import opened Placement

  /** sectionIndex is 2^32 - 1 when a segment, not a section, answered. */
  datatype FileAddress = FileAddress(fileOffset: U64, available: U64, sectionIndex: U32)

  // ----- which record answers a query -----

  /** [at, at + length) lies in [begin, begin + size). */
  predicate Inside(at: U64, length: U64, begin: U64, size: U64)
  {
    at >= begin && RangeInside(at - begin, length, size)
  }

  function SectionHasAddress(address: U64, length: U64): Section -> bool
  {
    (s: Section) => Inside(address, length, s.virtualAddress, s.memorySize)
  }

  function SectionHasOffset(offset: U64, length: U64): Section -> bool
  {
    (s: Section) => Inside(offset, length, s.fileOffset, s.fileSize)
  }

  function SegmentHasAddress(address: U64, length: U64): Segment -> bool
  {
    (s: Segment) => Inside(address, length, s.virtualAddress, s.fileSize)
  }

  function SegmentHasOffset(offset: U64, length: U64): Segment -> bool
  {
    (s: Segment) => Inside(offset, length, s.fileOffset, s.fileSize)
  }

  /** The first item from i on that has it, if any. */
  function Find<T>(items: seq<T>, has: T -> bool, i: nat): (r: Option<nat>)
    requires i <= |items|
    ensures r.Some? ==> i <= r.value < |items| && has(items[r.value]) && forall j :: i <= j < r.value ==> !has(items[j])
    ensures r.None? ==> forall j :: i <= j < |items| ==> !has(items[j])
    decreases |items| - i
  {
    if i == |items| then None else if has(items[i]) then Some(i) else Find(items, has, i + 1)
  }

  /** What a section says about an address in its memory range: nothing if the range is not all
      backed by the file. */
  function SectionAnswer(s: Section, address: U64, length: U64): Option<FileAddress>
    requires SectionHasAddress(address, length)(s)
  {
    var displacement := address - s.virtualAddress;
    if !RangeInside(displacement, length, s.fileSize) || s.fileOffset + displacement >= TWO64 then None
    else Some(FileAddress(s.fileOffset + displacement, s.fileSize - displacement, s.index))
  }

  function SegmentAnswer(s: Segment, address: U64, length: U64): Option<FileAddress>
    requires SegmentHasAddress(address, length)(s)
  {
    var displacement := address - s.virtualAddress;
    if s.fileOffset + displacement >= TWO64 then None
    else Some(FileAddress(s.fileOffset + displacement, s.fileSize - displacement, 0xFFFF_FFFF))
  }

  /** begin + (at - from), if it fits. */
  function Moved(at: U64, from: U64, begin: U64): Option<U64>
    requires at >= from
  {
    if begin + (at - from) < TWO64 then Some(begin + (at - from)) else None
  }

  /** The answer to an address: that of the first section whose memory holds the range, else that
      of the first segment whose file-backed part does, else nothing. */
  function AddressAnswer(image: BinaryImage, address: U64, length: U64): Option<FileAddress>
  {
    match Find(image.sections, SectionHasAddress(address, length), 0)
    case Some(i) => SectionAnswer(image.sections[i], address, length)
    case None =>
      match Find(image.segments, SegmentHasAddress(address, length), 0)
      case Some(i) => SegmentAnswer(image.segments[i], address, length)
      case None => None
  }

  /** The answer to a file offset, likewise. */
  function OffsetAnswer(image: BinaryImage, offset: U64, length: U64): Option<U64>
  {
    match Find(image.sections, SectionHasOffset(offset, length), 0)
    case Some(i) => Moved(offset, image.sections[i].fileOffset, image.sections[i].virtualAddress)
    case None =>
      match Find(image.segments, SegmentHasOffset(offset, length), 0)
      case Some(i) => Moved(offset, image.segments[i].fileOffset, image.segments[i].virtualAddress)
      case None => None
  }

  // ----- the two searches -----

  /** virtual_to_file. */
  method VirtualToFile(image: BinaryImage, address: U64, length: U64) returns (r: Option<FileAddress>)
    ensures r == AddressAnswer(image, address, length)
  {
    ghost var hasSection, hasSegment := SectionHasAddress(address, length), SegmentHasAddress(address, length);
    for i := 0 to |image.sections|
      invariant Find(image.sections, hasSection, 0) == Find(image.sections, hasSection, i)
    {
      var x := image.sections[i];
      assert hasSection(x) <==> Inside(address, length, x.virtualAddress, x.memorySize);
      if address < x.virtualAddress { continue; }
      var displacement := address - x.virtualAddress;
      if !RangeInside(displacement, length, x.memorySize) { continue; }
      if !RangeInside(displacement, length, x.fileSize) { return None; }
      var offset := CheckedAdd(x.fileOffset, displacement);
      if offset.None? { return None; }
      return Some(FileAddress(offset.value, x.fileSize - displacement, x.index));
    }
    for i := 0 to |image.segments|
      invariant Find(image.segments, hasSegment, 0) == Find(image.segments, hasSegment, i)
    {
      var x := image.segments[i];
      assert hasSegment(x) <==> Inside(address, length, x.virtualAddress, x.fileSize);
      if address < x.virtualAddress { continue; }
      var displacement := address - x.virtualAddress;
      if !RangeInside(displacement, length, x.fileSize) { continue; }
      var offset := CheckedAdd(x.fileOffset, displacement);
      if offset.None? { return None; }
      return Some(FileAddress(offset.value, x.fileSize - displacement, 0xFFFF_FFFF));
    }
    return None;
  }

  /** file_to_virtual. */
  method FileToVirtual(image: BinaryImage, offset: U64, length: U64) returns (r: Option<U64>)
    ensures r == OffsetAnswer(image, offset, length)
  {
    ghost var hasSection, hasSegment := SectionHasOffset(offset, length), SegmentHasOffset(offset, length);
    for i := 0 to |image.sections|
      invariant Find(image.sections, hasSection, 0) == Find(image.sections, hasSection, i)
    {
      var x := image.sections[i];
      assert hasSection(x) <==> Inside(offset, length, x.fileOffset, x.fileSize);
      if offset < x.fileOffset { continue; }
      var displacement := offset - x.fileOffset;
      if !RangeInside(displacement, length, x.fileSize) { continue; }
      r := CheckedAdd(x.virtualAddress, displacement);
      return;
    }
    for i := 0 to |image.segments|
      invariant Find(image.segments, hasSegment, 0) == Find(image.segments, hasSegment, i)
    {
      var x := image.segments[i];
      assert hasSegment(x) <==> Inside(offset, length, x.fileOffset, x.fileSize);
      if offset < x.fileOffset { continue; }
      var displacement := offset - x.fileOffset;
      if !RangeInside(displacement, length, x.fileSize) { continue; }
      r := CheckedAdd(x.virtualAddress, displacement);
      return;
    }
    return None;
  }

  // ----- on built images they are inverse to each other -----

  /** Section x ends before y begins, in memory and in the file. */
  predicate EndsBefore(x: Section, y: Section)
  {
    x.virtualAddress + x.memorySize <= y.virtualAddress && x.fileOffset + x.fileSize <= y.fileOffset
  }

  lemma EarlierEndsBefore(limits: Limits, o: BuilderOptions, s: seq<BuilderSection>, cuts: seq<nat>,
                          image: BinaryImage, k: nat, i: nat)
    requires IsBuilt(limits, o, s, cuts, image) && k < i < |s|
    ensures EndsBefore(image.sections[k], image.sections[i])
  {
    SectionsLaidOut(limits, o, s, cuts, image, k, i);
  }

  /** A nonempty range inside one section's memory is inside no other's. */
  lemma OnlySectionAtAddress(limits: Limits, o: BuilderOptions, s: seq<BuilderSection>, cuts: seq<nat>,
                             image: BinaryImage, i: nat, address: U64, length: U64)
    requires IsBuilt(limits, o, s, cuts, image) && i < |s| && length > 0
    requires SectionHasAddress(address, length)(image.sections[i])
    ensures Find(image.sections, SectionHasAddress(address, length), 0) == Some(i)
  {
    var k := Find(image.sections, SectionHasAddress(address, length), 0).value;
    if k < i { EarlierEndsBefore(limits, o, s, cuts, image, k, i); }
  }

  lemma OnlySectionAtOffset(limits: Limits, o: BuilderOptions, s: seq<BuilderSection>, cuts: seq<nat>,
                            image: BinaryImage, i: nat, offset: U64, length: U64)
    requires IsBuilt(limits, o, s, cuts, image) && i < |s| && length > 0
    requires SectionHasOffset(offset, length)(image.sections[i])
    ensures Find(image.sections, SectionHasOffset(offset, length), 0) == Some(i)
  {
    var k := Find(image.sections, SectionHasOffset(offset, length), 0).value;
    if k < i { EarlierEndsBefore(limits, o, s, cuts, image, k, i); }
  }

  /** length bytes from displacement on are file-backed bytes of section x, at positions that fit 64 bits. */
  predicate FileBacked(x: Section, displacement: nat, length: U64)
  {
    && displacement + length <= x.fileSize <= x.memorySize
    && x.virtualAddress + displacement + length < TWO64 && x.fileOffset + displacement + length < TWO64
  }

  lemma BytePlaced(limits: Limits, o: BuilderOptions, s: seq<BuilderSection>, cuts: seq<nat>, image: BinaryImage,
                   i: nat, displacement: nat, length: U64)
    requires IsBuilt(limits, o, s, cuts, image) && i < |s| && displacement + length <= |s[i].data|
    ensures FileBacked(image.sections[i], displacement, length)
    ensures image.sections[i].fileSize == |s[i].data| && image.sections[i].index == i
  {
    assert SectionIs(o, s, i, image.sections[i]) && PlacementError(limits, o, s, i).None?;
  }

  lemma InsideItself(x: Section, displacement: nat, length: U64)
    requires FileBacked(x, displacement, length)
    ensures SectionHasAddress(x.virtualAddress + displacement, length)(x)
    ensures SectionHasOffset(x.fileOffset + displacement, length)(x)
  {
  }

  /** Both searches find section i. */
  ghost predicate FoundAt(image: BinaryImage, i: nat, displacement: nat, length: U64)
    requires i < |image.sections| && FileBacked(image.sections[i], displacement, length)
  {
    var x := image.sections[i];
    && Find(image.sections, SectionHasAddress(x.virtualAddress + displacement, length), 0) == Some(i)
    && Find(image.sections, SectionHasOffset(x.fileOffset + displacement, length), 0) == Some(i)
  }

  lemma BothFind(limits: Limits, o: BuilderOptions, s: seq<BuilderSection>, cuts: seq<nat>, image: BinaryImage,
                 i: nat, displacement: nat, length: U64)
    requires IsBuilt(limits, o, s, cuts, image) && i < |s| && length > 0
    requires FileBacked(image.sections[i], displacement, length)
    ensures FoundAt(image, i, displacement, length)
  {
    var x := image.sections[i];
    InsideItself(x, displacement, length);
    OnlySectionAtAddress(limits, o, s, cuts, image, i, x.virtualAddress + displacement, length);
    OnlySectionAtOffset(limits, o, s, cuts, image, i, x.fileOffset + displacement, length);
  }

  /** Section i gives the answers at this displacement, and they lead to each other. */
  ghost predicate InverseAt(image: BinaryImage, i: nat, displacement: nat, length: U64)
    requires i < |image.sections|
  {
    var x := image.sections[i];
    && displacement <= x.fileSize
    && x.virtualAddress + displacement < TWO64 && x.fileOffset + displacement < TWO64
    && var address, offset := x.virtualAddress + displacement, x.fileOffset + displacement;
       && AddressAnswer(image, address, length) == Some(FileAddress(offset, x.fileSize - displacement, x.index))
       && OffsetAnswer(image, offset, length) == Some(address)
  }

  lemma FoundMeansInverse(image: BinaryImage, i: nat, displacement: nat, length: U64)
    requires i < |image.sections| && FileBacked(image.sections[i], displacement, length)
    requires FoundAt(image, i, displacement, length)
    ensures InverseAt(image, i, displacement, length)
  {
  }

  /** On the file-backed bytes of a section each search undoes the other: both answer with section
      i, at one displacement from its beginning. */
  lemma TranslationsInverse(limits: Limits, o: BuilderOptions, s: seq<BuilderSection>, cuts: seq<nat>,
                            image: BinaryImage, i: nat, displacement: nat, length: U64)
    requires IsBuilt(limits, o, s, cuts, image) && i < |s|
    requires length > 0 && displacement + length <= |s[i].data|
    ensures image.sections[i].index == i && image.sections[i].fileSize == |s[i].data|
    ensures InverseAt(image, i, displacement, length)
  {
    BytePlaced(limits, o, s, cuts, image, i, displacement, length);
    BothFind(limits, o, s, cuts, image, i, displacement, length);
    FoundMeansInverse(image, i, displacement, length);
  }

  // ----- the answers, from the fields of the records -----

  predicate RangeIn(at: int, length: int, begin: int, size: int)
  {
    begin <= at && at + length <= begin + size
  }

  /** Section i is the first whose memory holds the range. */
  predicate SectionAtAddress(image: BinaryImage, i: nat, address: U64, length: U64)
  {
    && i < |image.sections|
    && RangeIn(address, length, image.sections[i].virtualAddress, image.sections[i].memorySize)
    && forall j {:trigger image.sections[j]} :: 0 <= j < i ==>
         !RangeIn(address, length, image.sections[j].virtualAddress, image.sections[j].memorySize)
  }

  predicate SegmentAtAddress(image: BinaryImage, i: nat, address: U64, length: U64)
  {
    && i < |image.segments|
    && RangeIn(address, length, image.segments[i].virtualAddress, image.segments[i].fileSize)
    && forall j {:trigger image.segments[j]} :: 0 <= j < i ==>
         !RangeIn(address, length, image.segments[j].virtualAddress, image.segments[j].fileSize)
  }

  predicate SectionAtOffset(image: BinaryImage, i: nat, offset: U64, length: U64)
  {
    && i < |image.sections|
    && RangeIn(offset, length, image.sections[i].fileOffset, image.sections[i].fileSize)
    && forall j {:trigger image.sections[j]} :: 0 <= j < i ==>
         !RangeIn(offset, length, image.sections[j].fileOffset, image.sections[j].fileSize)
  }

  predicate SegmentAtOffset(image: BinaryImage, i: nat, offset: U64, length: U64)
  {
    && i < |image.segments|
    && RangeIn(offset, length, image.segments[i].fileOffset, image.segments[i].fileSize)
    && forall j {:trigger image.segments[j]} :: 0 <= j < i ==>
         !RangeIn(offset, length, image.segments[j].fileOffset, image.segments[j].fileSize)
  }

  /** r stands as far behind begin as at does behind its own begin, and ends where size bytes from there end. */
  predicate Displaced(r: FileAddress, at: int, from: int, begin: int, size: int)
  {
    r.fileOffset - begin == at - from && r.fileOffset + r.available == begin + size
  }

  lemma {:induction false} FindFirst<T>(items: seq<T>, has: T -> bool, i: nat, n: nat)
    requires n <= i < |items| && has(items[i]) && forall j {:trigger items[j]} :: n <= j < i ==> !has(items[j])
    ensures Find(items, has, n) == Some(i)
    decreases i - n
  {
    if n < i {
      assert !has(items[n]);
      FindFirst(items, has, i, n + 1);
    }
  }

  /** If a section's memory holds the range, the first that does answers, provided that the file backs the range
      there and its position fits. */
  lemma SectionAnswers(image: BinaryImage, i: nat, address: U64, length: U64)
    requires SectionAtAddress(image, i, address, length)
    ensures var r, s := AddressAnswer(image, address, length), image.sections[i];
            && (r.Some? <==>
                  && RangeIn(address, length, s.virtualAddress, s.fileSize)
                  && s.fileOffset + (address - s.virtualAddress) < TWO64)
            && (r.Some? ==>
                  && Displaced(r.value, address, s.virtualAddress, s.fileOffset, s.fileSize)
                  && r.value.sectionIndex == s.index)
  {
    FindFirst(image.sections, SectionHasAddress(address, length), i, 0);
  }

  /** Otherwise the first segment answers whose file-backed part holds it, under no section's number. */
  lemma SegmentAnswers(image: BinaryImage, i: nat, address: U64, length: U64)
    requires SegmentAtAddress(image, i, address, length)
    requires forall j: nat {:trigger SectionAtAddress(image, j, address, length)} ::
               !SectionAtAddress(image, j, address, length)
    ensures var r, s := AddressAnswer(image, address, length), image.segments[i];
            && (r.Some? <==> s.fileOffset + (address - s.virtualAddress) < TWO64)
            && (r.Some? ==>
                  && Displaced(r.value, address, s.virtualAddress, s.fileOffset, s.fileSize)
                  && r.value.sectionIndex == TWO32 - 1)
  {
    var found := Find(image.sections, SectionHasAddress(address, length), 0);
    assert found.Some? ==> SectionAtAddress(image, found.value, address, length);
    FindFirst(image.segments, SegmentHasAddress(address, length), i, 0);
  }

  lemma NothingAnswers(image: BinaryImage, address: U64, length: U64)
    requires forall j: nat {:trigger SectionAtAddress(image, j, address, length)} ::
               !SectionAtAddress(image, j, address, length)
    requires forall j: nat {:trigger SegmentAtAddress(image, j, address, length)} ::
               !SegmentAtAddress(image, j, address, length)
    ensures AddressAnswer(image, address, length).None?
  {
    var found := Find(image.sections, SectionHasAddress(address, length), 0);
    assert found.Some? ==> SectionAtAddress(image, found.value, address, length);
    var next := Find(image.segments, SegmentHasAddress(address, length), 0);
    assert next.Some? ==> SegmentAtAddress(image, next.value, address, length);
  }

  /** And the same for file offsets. */
  lemma OffsetAnswers(image: BinaryImage, offset: U64, length: U64)
    ensures forall i: nat {:trigger SectionAtOffset(image, i, offset, length)} ::
              SectionAtOffset(image, i, offset, length) ==>
                AnsweredBy(image, offset, length, image.sections[i].virtualAddress, image.sections[i].fileOffset)
    ensures forall i: nat {:trigger SegmentAtOffset(image, i, offset, length)} ::
              SegmentAtOffset(image, i, offset, length)
              && (forall j: nat {:trigger SectionAtOffset(image, j, offset, length)} ::
                    !SectionAtOffset(image, j, offset, length)) ==>
                AnsweredBy(image, offset, length, image.segments[i].virtualAddress, image.segments[i].fileOffset)
    ensures OffsetAnswer(image, offset, length).Some? ==>
              || (exists i: nat :: SectionAtOffset(image, i, offset, length))
              || (exists i: nat :: SegmentAtOffset(image, i, offset, length))
  {
    var found := Find(image.sections, SectionHasOffset(offset, length), 0);
    var next := Find(image.segments, SegmentHasOffset(offset, length), 0);
    assert found.Some? ==> SectionAtOffset(image, found.value, offset, length);
    assert next.Some? ==> SegmentAtOffset(image, next.value, offset, length);
    forall i: nat | SectionAtOffset(image, i, offset, length) ensures found == Some(i) {
      FindFirst(image.sections, SectionHasOffset(offset, length), i, 0);
    }
    forall i: nat | SegmentAtOffset(image, i, offset, length) ensures next == Some(i) {
      FindFirst(image.segments, SegmentHasOffset(offset, length), i, 0);
    }
  }

  /** The answer to the offset is as far behind address begin as the offset is behind from, if that fits. */
  predicate AnsweredBy(image: BinaryImage, offset: U64, length: U64, begin: U64, from: U64)
  {
    var r := OffsetAnswer(image, offset, length);
    (r.Some? <==> begin + (offset - from) < TWO64) && (r.Some? ==> r.value - begin == offset - from)
  }
}
