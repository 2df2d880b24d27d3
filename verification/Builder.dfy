/** BinaryImageBuilder of src/builder.cc. */
module Builder {
  import opened Base
  import opened Image
  import opened Placement

  // ----- segments -----

  /** Segment k is made from sections lo to hi - 1: they share its permissions, when those are kept
      apart, and it reaches from the first of them to the end of the last. */
  ghost predicate SegmentIs(o: BuilderOptions, s: seq<BuilderSection>, lo: nat, hi: nat, k: nat, x: Segment)
    requires o.fileAlignment > 0 && o.memoryAlignment > 0
  {
    && lo < hi <= |s| && x.index == k
    && x.fileOffset == FileOffset(o, s, lo) && x.fileOffset + x.fileSize == FileCursor(o, s, hi)
    && x.virtualAddress == Address(o, s, lo) && x.virtualAddress + x.memorySize == MemoryCursor(o, s, hi)
    && x.alignment == MemoryAlignment(o, s[lo]) && x.permissions == s[lo].permissions
    && |x.sections| == hi - lo && (forall j {:trigger x.sections[j]} :: 0 <= j < hi - lo ==> x.sections[j] == lo + j)
    && (o.separatePermissions ==>
          forall i {:trigger s[i]} :: lo <= i < hi ==> s[i].permissions == x.permissions)
  }

  /** The segments partition the first n sections into consecutive runs; segment k starts with
      section cuts[k], where the permissions change. */
  ghost predicate SegmentsAre(o: BuilderOptions, s: seq<BuilderSection>, n: nat, cuts: seq<nat>, segments: seq<Segment>)
    requires o.fileAlignment > 0 && o.memoryAlignment > 0
  {
    && n <= |s| && |cuts| == |segments| + 1 && cuts[0] == 0 && cuts[|segments|] == n
    && (forall k {:trigger segments[k]} :: 0 <= k < |segments| ==>
          SegmentIs(o, s, cuts[k], cuts[k + 1], k, segments[k]))
    && (forall k {:trigger CutAt(o, s, cuts, segments, k)} :: 0 < k < |segments| ==> CutAt(o, s, cuts, segments, k))
  }

  /** Segment k starts where the permissions change. */
  ghost predicate CutAt(o: BuilderOptions, s: seq<BuilderSection>, cuts: seq<nat>, segments: seq<Segment>, k: int)
    requires 0 < k < |segments| && |cuts| == |segments| + 1
  {
    o.separatePermissions && cuts[k] < |s| && s[cuts[k]].permissions != segments[k - 1].permissions
  }

  lemma NewSegment(o: BuilderOptions, s: seq<BuilderSection>, n: nat, cuts: seq<nat>, segments: seq<Segment>,
                   x: Segment)
    requires o.fileAlignment > 0 && o.memoryAlignment > 0
    requires SegmentsAre(o, s, n, cuts, segments) && SegmentIs(o, s, n, n + 1, |segments|, x)
    requires segments != [] ==> o.separatePermissions && s[n].permissions != segments[|segments| - 1].permissions
    ensures SegmentsAre(o, s, n + 1, cuts + [n + 1], segments + [x])
  {
    var c, m := cuts + [n + 1], segments + [x];
    forall k {:trigger m[k]} | 0 <= k < |m| ensures SegmentIs(o, s, c[k], c[k + 1], k, m[k]) {
      if k < |segments| { assert SegmentIs(o, s, cuts[k], cuts[k + 1], k, segments[k]); }
    }
    forall k | 0 < k < |m| ensures CutAt(o, s, c, m, k) {
      if k < |segments| { assert CutAt(o, s, cuts, segments, k); }
    }
  }

  lemma LongerSegment(o: BuilderOptions, s: seq<BuilderSection>, n: nat, cuts: seq<nat>, segments: seq<Segment>,
                      x: Segment)
    requires o.fileAlignment > 0 && o.memoryAlignment > 0
    requires SegmentsAre(o, s, n, cuts, segments) && segments != []
    requires SegmentIs(o, s, cuts[|segments| - 1], n + 1, |segments| - 1, x)
    requires x.permissions == segments[|segments| - 1].permissions
    ensures SegmentsAre(o, s, n + 1, cuts[..|segments|] + [n + 1], segments[|segments| - 1 := x])
  {
    var c, m := cuts[..|segments|] + [n + 1], segments[|segments| - 1 := x];
    forall k {:trigger m[k]} | 0 <= k < |m| ensures SegmentIs(o, s, c[k], c[k + 1], k, m[k]) {
      if k < |m| - 1 { assert SegmentIs(o, s, cuts[k], cuts[k + 1], k, segments[k]); }
    }
    forall k | 0 < k < |m| ensures CutAt(o, s, c, m, k) { assert CutAt(o, s, cuts, segments, k); }
  }

  lemma DrawnOut(o: BuilderOptions, s: seq<BuilderSection>, lo: nat, i: nat, k: nat, last: Segment, wider: Segment)
    requires o.fileAlignment > 0 && o.memoryAlignment > 0 && SegmentIs(o, s, lo, i, k, last) && i < |s| && i < TWO32
    requires o.separatePermissions ==> s[i].permissions == last.permissions
    requires wider == last.(fileSize := wider.fileSize, memorySize := wider.memorySize, sections := last.sections + [i])
    requires wider.fileOffset + wider.fileSize == FileCursor(o, s, i + 1)
    requires wider.virtualAddress + wider.memorySize == MemoryCursor(o, s, i + 1)
    ensures SegmentIs(o, s, lo, i + 1, k, wider)
  {
  }

  // ----- the placement loop -----

  /** The placement of one section: its record, or the reason it does not fit. */
  method PlaceSection(limits: Limits, o: BuilderOptions, s: seq<BuilderSection>, i: nat, fileCursor: U64,
                      memoryCursor: U64)
    returns (r: Result<Section>)
    requires GoodAlignments(o, s) && i < |s| && i < TWO32
    requires fileCursor == FileCursor(o, s, i) && memoryCursor == MemoryCursor(o, s, i)
    ensures r.Ok? ==> PlacementError(limits, o, s, i).None? && SectionIs(o, s, i, r.value)
    ensures r.Err? ==> PlacementError(limits, o, s, i) == Some(r.code)
  {
    var source := s[i];
    var fileAlignment, memoryAlignment := FileAlignment(o, source), MemoryAlignment(o, source);
    AlignUpExact(fileCursor, fileAlignment);
    AlignUpExact(memoryCursor, memoryAlignment);
    var fileOffset := CheckedAlignUp(fileCursor, fileAlignment);
    var virtualAddress := CheckedAlignUp(memoryCursor, memoryAlignment);
    if fileOffset.None? || virtualAddress.None? { return Err(AddressOverflow); }
    if fileOffset.value > limits.maxFileSize || |source.data| > limits.maxFileSize - fileOffset.value {
      return Err(ResourceLimit);
    }
    var memorySize := CheckedAdd(|source.data|, source.zeroFill);
    if memorySize.None? { return Err(AddressOverflow); }
    var end := CheckedAdd(virtualAddress.value, memorySize.value);
    if end.None? { return Err(AddressOverflow); }
    return Ok(Section(i, source.name, source.kind, fileOffset.value, |source.data|, virtualAddress.value,
                      memorySize.value, source.alignment, 0, 0, source.permissions));
  }

  /** A segment drawn out over the section behind it. */
  method DrawOut(o: BuilderOptions, s: seq<BuilderSection>, ghost lo: nat, i: nat, ghost k: nat, x: Section,
                 last: Segment)
    returns (wider: Segment)
    requires GoodAlignments(o, s) && i < |s| && i < TWO32 && SectionIs(o, s, i, x)
    requires FileCursor(o, s, i + 1) < TWO64 && MemoryCursor(o, s, i + 1) < TWO64
    requires SegmentIs(o, s, lo, i, k, last) && (o.separatePermissions ==> last.permissions == x.permissions)
    ensures SegmentIs(o, s, lo, i + 1, k, wider) && wider.permissions == last.permissions
  {
    Increasing(o, s, lo, i + 1);
    var fileEnd, memoryEnd := CheckedAdd(x.fileOffset, x.fileSize), CheckedAdd(x.virtualAddress, x.memorySize);
    wider := last.(fileSize := fileEnd.value - last.fileOffset, memorySize := memoryEnd.value - last.virtualAddress,
                   sections := last.sections + [x.index]);
    DrawnOut(o, s, lo, i, k, last, wider);
  }

  /** A segment of its own. */
  method SegmentFor(o: BuilderOptions, s: seq<BuilderSection>, i: nat, k: U32, x: Section) returns (r: Segment)
    requires GoodAlignments(o, s) && i < |s| && i < TWO32 && SectionIs(o, s, i, x)
    ensures SegmentIs(o, s, i, i + 1, k, r)
  {
    r := Segment(k, x.fileOffset, x.fileSize, x.virtualAddress, x.memorySize, MemoryAlignment(o, s[i]), x.permissions,
                 [x.index]);
  }

  /** A new segment for section i, or the last segment drawn out over it. */
  method AddToSegments(o: BuilderOptions, s: seq<BuilderSection>, i: nat, x: Section,
                       segments: seq<Segment>, ghost cuts: seq<nat>)
    returns (r: seq<Segment>, ghost c: seq<nat>)
    requires GoodAlignments(o, s) && i < |s| && i < TWO32 && SectionIs(o, s, i, x)
    requires FileCursor(o, s, i + 1) < TWO64 && MemoryCursor(o, s, i + 1) < TWO64
    requires SegmentsAre(o, s, i, cuts, segments) && |segments| <= i
    ensures SegmentsAre(o, s, i + 1, c, r) && |r| <= i + 1
  {
    var n := |segments| - 1;
    if n < 0 || (o.separatePermissions && segments[n].permissions != x.permissions) {
      var segment := SegmentFor(o, s, i, |segments|, x);
      NewSegment(o, s, i, cuts, segments, segment);
      return segments + [segment], cuts + [i + 1];
    }
    assert SegmentIs(o, s, cuts[n], i, n, segments[n]);
    var wider := DrawOut(o, s, cuts[n], i, n, x, segments[n]);
    LongerSegment(o, s, i, cuts, segments, wider);
    return segments[n := wider], cuts[..n + 1] + [i + 1];
  }

  datatype PlacedImage = PlacedImage(storage: seq<Byte>, sections: seq<Section>, segments: seq<Segment>)

  /** The loop over the sections. */
  method PlaceAll(limits: Limits, o: BuilderOptions, s: seq<BuilderSection>)
    returns (r: Result<PlacedImage>, ghost cuts: seq<nat>)
    requires GoodAlignments(o, s) && |s| < TWO32
    ensures r.Ok? ==>
              && PlacedTo(limits, o, s, |s|) && SectionsAre(o, s, r.value.sections) && |r.value.sections| == |s|
              && StorageIs(o, s, |s|, r.value.storage) && SegmentsAre(o, s, |s|, cuts, r.value.segments)
    ensures r.Err? ==> exists i :: FailsFirst(limits, o, s, i, r.code)
  {
    var storage: seq<Byte> := [];
    var fileCursor: U64, memoryCursor: U64 := 0, o.imageBase;
    var sections: seq<Section> := [];
    var segments: seq<Segment> := [];
    cuts := [0];
    for i := 0 to |s|
      invariant PlacedTo(limits, o, s, i) && |sections| == i && SectionsAre(o, s, sections)
      invariant fileCursor == FileCursor(o, s, i) && memoryCursor == MemoryCursor(o, s, i)
      invariant StorageIs(o, s, i, storage)
      invariant SegmentsAre(o, s, i, cuts, segments) && |segments| <= i
    {
      var section := PlaceSection(limits, o, s, i, fileCursor, memoryCursor);
      if section.Err? {
        assert FailsFirst(limits, o, s, i, section.code);
        return Err(section.code), cuts;
      }
      var zeros: seq<Byte> := seq(section.value.fileOffset - fileCursor, p => 0);
      StorageGrows(o, s, i, storage, zeros);
      storage := storage + zeros + s[i].data;
      sections := sections + [section.value];
      segments, cuts := AddToSegments(o, s, i, section.value, segments, cuts);
      fileCursor := section.value.fileOffset + |s[i].data|;
      memoryCursor := section.value.virtualAddress + section.value.memorySize;
    }
    return Ok(PlacedImage(storage, sections, segments)), cuts;
  }

  // ----- the builder -----

  predicate Executable(permissions: Byte)
  {
    BitAnd(permissions, PERMISSION_EXECUTE) != 0
  }

  /** The address of the first executable section, 0 when there is none. */
  ghost predicate IsEntryPoint(sections: seq<Section>, entry: U64)
  {
    if exists i :: 0 <= i < |sections| && Executable(sections[i].permissions)
    then exists i :: 0 <= i < |sections| && Executable(sections[i].permissions) && entry == sections[i].virtualAddress
                     && forall j :: 0 <= j < i ==> !Executable(sections[j].permissions)
    else entry == 0
  }

  method EntryPoint(sections: seq<Section>) returns (entry: U64)
    ensures IsEntryPoint(sections, entry)
  {
    for i := 0 to |sections|
      invariant forall j :: 0 <= j < i ==> !Executable(sections[j].permissions)
    {
      if Executable(sections[i].permissions) { return sections[i].virtualAddress; }
    }
    return 0;
  }

  /** The image of the sections s under options o. */
  ghost predicate IsBuilt(limits: Limits, o: BuilderOptions, s: seq<BuilderSection>, cuts: seq<nat>, image: BinaryImage)
  {
    && GoodAlignments(o, s) && PlacedTo(limits, o, s, |s|)
    && |image.sections| == |s| && SectionsAre(o, s, image.sections)
    && image.fileData.Some? && StorageIs(o, s, |s|, image.fileData.value)
    && SegmentsAre(o, s, |s|, cuts, image.segments)
    && image.imageBase == o.imageBase && image.wordSize == o.wordSize && image.byteOrder == o.byteOrder
    && IsEntryPoint(image.sections, image.entryPoint)
  }

  /** Section i is the first that cannot be placed. */
  ghost predicate FailsFirst(limits: Limits, o: BuilderOptions, s: seq<BuilderSection>, i: nat, code: ErrorCode)
  {
    && i < |s| && o.fileAlignment > 0 && o.memoryAlignment > 0
    && PlacedTo(limits, o, s, i) && PlacementError(limits, o, s, i) == Some(code)
  }

  /** What building comes to: options rejected, the first section that cannot be placed, or the built
      image, if the validator accepts it, and otherwise its error. */
  ghost predicate BuildOutcome(limits: Limits, o: BuilderOptions, s: seq<BuilderSection>, symbols: seq<Symbol>,
                               relocations: seq<Relocation>, imports: seq<Import>, cuts: seq<nat>,
                               r: Result<BinaryImage>)
  {
    if OptionsRejected(limits, o) then r == Err(InvalidAlignment)
    else
      || (r.Err? && exists i :: FailsFirst(limits, o, s, i, r.code))
      || (exists image :: Assembled(limits, o, s, symbols, relocations, imports, cuts, image)
                          && r == Validated(limits, image))
  }

  /** The image with these symbols, relocations and imports. */
  ghost predicate Assembled(limits: Limits, o: BuilderOptions, s: seq<BuilderSection>, symbols: seq<Symbol>,
                            relocations: seq<Relocation>, imports: seq<Import>, cuts: seq<nat>, image: BinaryImage)
  {
    && IsBuilt(limits, o, s, cuts, image)
    && image.symbols == symbols && image.relocations == relocations && image.imports == imports
  }

  function Validated(limits: Limits, image: BinaryImage): Result<BinaryImage>
  {
    match FirstError(limits, image)
    case None => Ok(image)
    case Some(code) => Err(code)
  }

  predicate OptionsRejected(limits: Limits, o: BuilderOptions)
  {
    || BadAlignment(o.fileAlignment) || BadAlignment(o.memoryAlignment)
    || o.fileAlignment > limits.maxSectionBytes || o.memoryAlignment > limits.maxMappedBytes
  }

  predicate SectionRejected(limits: Limits, count: nat, x: BuilderSection)
  {
    || count >= limits.maxSections || |x.name| > limits.maxStringBytes
    || |x.data| > limits.maxSectionBytes || BadAlignment(x.alignment)
  }

  class BinaryImageBuilder {
    const limits: Limits
    var sections: seq<BuilderSection>
    var symbols: seq<Symbol>
    var relocations: seq<Relocation>
    var imports: seq<Import>

    /** Section names are distinct and every section passed the checks of add_section. */
    ghost predicate Valid()
      reads this
    {
      && |sections| <= limits.maxSections
      && (forall i {:trigger sections[i]} :: 0 <= i < |sections| ==> !SectionRejected(limits, i, sections[i]))
      && (forall i, j :: 0 <= i < j < |sections| ==> sections[i].name != sections[j].name)
    }

    constructor (limits: Limits)
      ensures Valid() && this.limits == limits && sections == []
    {
      this.limits := limits;
      sections, symbols, relocations, imports := [], [], [], [];
    }

    /** add_section. */
    method AddSection(section: BuilderSection) returns (s: Status)
      requires Valid()
      modifies this`sections
      ensures Valid()
      ensures s == if SectionRejected(limits, old(|sections|), section) then Failed(ResourceLimit)
                   else if exists i :: 0 <= i < |old(sections)| && old(sections)[i].name == section.name
                   then Failed(InvalidSection) else Done
      ensures sections == if s.Done? then old(sections) + [section] else old(sections)
    {
      if SectionRejected(limits, |sections|, section) { return Failed(ResourceLimit); }
      if exists i :: 0 <= i < |sections| && sections[i].name == section.name { return Failed(InvalidSection); }
      sections := sections + [section];
      return Done;
    }

    /** build. */
    method Build(o: BuilderOptions) returns (r: Result<BinaryImage>, ghost cuts: seq<nat>)
      requires Valid()
      ensures OptionsRejected(limits, o) ==> r == Err(InvalidAlignment)
      ensures r.Ok? ==>
                && FirstError(limits, r.value).None? && |r.value.sections| == |sections|
                && r.value.symbols == symbols && r.value.relocations == relocations && r.value.imports == imports
      ensures BuildOutcome(limits, o, sections, symbols, relocations, imports, cuts, r)
    {
      cuts := [];
      if OptionsRejected(limits, o) { return Err(InvalidAlignment), []; }
      AlignmentsGood(limits, o, sections);
      assert GoodAlignments(o, sections);
      var placed;
      placed, cuts := PlaceAll(limits, o, sections);
      if placed.Err? { return Err(placed.code), cuts; }
      var entry := EntryPoint(placed.value.sections);
      var image := BinaryImage(o.imageBase, entry, o.wordSize, o.byteOrder, placed.value.sections,
                               placed.value.segments, symbols, relocations, imports, Some(placed.value.storage));
      assert Assembled(limits, o, sections, symbols, relocations, imports, cuts, image);
      var error := FirstError(limits, image);
      if error.Some? { return Err(error.value), cuts; }
      return Ok(image), cuts;
    }

    /** clear. */
    method Clear()
      modifies this
      ensures Valid() && sections == []
    {
      sections, symbols, relocations, imports := [], [], [], [];
    }
  }

  lemma AlignmentsGood(limits: Limits, o: BuilderOptions, s: seq<BuilderSection>)
    requires !OptionsRejected(limits, o)
    requires forall i {:trigger s[i]} :: 0 <= i < |s| ==> !SectionRejected(limits, i, s[i])
    ensures GoodAlignments(o, s)
  {
    AlignmentGuard(o.fileAlignment);
    AlignmentGuard(o.memoryAlignment);
    forall i | 0 <= i < |s| ensures s[i].alignment > 0 && IsPowerOfTwo(s[i].alignment) {
      AlignmentGuard(s[i].alignment);
    }
  }

  // ----- what a built image promises -----

  /** Each section stands at the least multiple of the larger of the two alignments at or behind the end of
      the section in front of it; the first one at or behind the begin of the file and the image base. */
  lemma SectionPlaced(limits: Limits, o: BuilderOptions, s: seq<BuilderSection>, cuts: seq<nat>, image: BinaryImage,
                      i: nat)
    requires IsBuilt(limits, o, s, cuts, image) && i < |s|
    ensures var x := image.sections[i];
            var fileEnd := if i == 0 then 0 else image.sections[i - 1].fileOffset + image.sections[i - 1].fileSize;
            var memoryEnd := if i == 0 then o.imageBase
                             else image.sections[i - 1].virtualAddress + image.sections[i - 1].memorySize;
            && LeastMultiple(fileEnd, Larger(o.fileAlignment, s[i].alignment), x.fileOffset)
            && LeastMultiple(memoryEnd, Larger(o.memoryAlignment, s[i].alignment), x.virtualAddress)
            && x.fileSize == |s[i].data| && x.memorySize == |s[i].data| + s[i].zeroFill
  {
    OffsetMeans(o, s, i);
    AddressMeans(o, s, i);
    assert SectionIs(o, s, i, image.sections[i]);
    if i > 0 { assert SectionIs(o, s, i - 1, image.sections[i - 1]); }
  }

  /** A segment reaches from its first section to the end of its last one, and is aligned in memory as its
      first section is. */
  lemma SegmentSpans(limits: Limits, o: BuilderOptions, s: seq<BuilderSection>, cuts: seq<nat>, image: BinaryImage,
                     k: nat)
    requires IsBuilt(limits, o, s, cuts, image) && k < |image.segments|
    ensures |cuts| == |image.segments| + 1 && cuts[k] < cuts[k + 1] <= |image.sections|
    ensures var x, first, last := image.segments[k], image.sections[cuts[k]], image.sections[cuts[k + 1] - 1];
            && x.fileOffset == first.fileOffset && x.virtualAddress == first.virtualAddress
            && x.fileOffset + x.fileSize == last.fileOffset + last.fileSize
            && x.virtualAddress + x.memorySize == last.virtualAddress + last.memorySize
            && x.alignment == Larger(o.memoryAlignment, first.alignment) && x.permissions == first.permissions
  {
    assert SegmentIs(o, s, cuts[k], cuts[k + 1], k, image.segments[k]);
    assert SectionIs(o, s, cuts[k], image.sections[cuts[k]]);
    assert SectionIs(o, s, cuts[k + 1] - 1, image.sections[cuts[k + 1] - 1]);
  }

  /** Sections stand in increasing, disjoint ranges of the file and of memory, each aligned to
      the larger of the two alignments, and the file holds their data. */
  lemma SectionsLaidOut(limits: Limits, o: BuilderOptions, s: seq<BuilderSection>, cuts: seq<nat>, image: BinaryImage,
                        i: nat, j: nat)
    requires IsBuilt(limits, o, s, cuts, image) && i < j < |s|
    ensures var x, y := image.sections[i], image.sections[j];
            && x.fileOffset + x.fileSize <= y.fileOffset && x.virtualAddress + x.memorySize <= y.virtualAddress
            && x.fileOffset % Larger(o.fileAlignment, s[i].alignment) == 0
            && x.virtualAddress % Larger(o.memoryAlignment, s[i].alignment) == 0
            && x.fileOffset + x.fileSize <= |image.fileData.value|
            && image.fileData.value[x.fileOffset..x.fileOffset + x.fileSize] == s[i].data
            && o.imageBase <= x.virtualAddress
  {
    Increasing(o, s, i, j);
    DataInStorage(o, s, image.fileData.value, i);
    BaseBelow(o, s, i);
  }

  lemma {:induction false} BaseBelow(o: BuilderOptions, s: seq<BuilderSection>, i: nat)
    requires o.memoryAlignment > 0 && i < |s|
    ensures o.imageBase <= Address(o, s, i)
  {
    if i > 0 { BaseBelow(o, s, i - 1); }
  }

  /** Every section lies inside the segment that lists it, in the file and in memory. */
  lemma SegmentEncloses(o: BuilderOptions, s: seq<BuilderSection>, cuts: seq<nat>, segments: seq<Segment>, k: nat,
                        i: nat)
    requires GoodAlignments(o, s) && SegmentsAre(o, s, |s|, cuts, segments)
    requires k < |segments| && cuts[k] <= i < cuts[k + 1]
    ensures i < |s| && i - cuts[k] < |segments[k].sections| && segments[k].sections[i - cuts[k]] == i
    ensures var x := segments[k];
            && x.fileOffset <= FileOffset(o, s, i) && FileOffset(o, s, i) + |s[i].data| <= x.fileOffset + x.fileSize
            && x.virtualAddress <= Address(o, s, i)
            && Address(o, s, i) + s[i].MemorySize() <= x.virtualAddress + x.memorySize
  {
    assert SegmentIs(o, s, cuts[k], cuts[k + 1], k, segments[k]);
    Increasing(o, s, i, cuts[k + 1]);
    if cuts[k] < i { Increasing(o, s, cuts[k], i); }
  }

  lemma RunNonempty(o: BuilderOptions, s: seq<BuilderSection>, cuts: seq<nat>, segments: seq<Segment>, k: nat)
    requires GoodAlignments(o, s) && SegmentsAre(o, s, |s|, cuts, segments) && k < |segments|
    ensures cuts[k] < cuts[k + 1]
  {
    assert SegmentIs(o, s, cuts[k], cuts[k + 1], k, segments[k]);
  }

  lemma {:induction false} CutsAtLeast(o: BuilderOptions, s: seq<BuilderSection>, cuts: seq<nat>,
                                       segments: seq<Segment>, j: nat, k: nat)
    requires GoodAlignments(o, s) && SegmentsAre(o, s, |s|, cuts, segments) && j <= k <= |segments|
    ensures cuts[j] + (k - j) <= cuts[k]
  {
    if j < k {
      RunNonempty(o, s, cuts, segments, k - 1);
      CutsAtLeast(o, s, cuts, segments, j, k - 1);
    }
  }

  /** Every section belongs to exactly one segment: the runs cover all sections and do not overlap. */
  lemma {:induction false} SegmentOf(o: BuilderOptions, s: seq<BuilderSection>, cuts: seq<nat>, segments: seq<Segment>,
                                     i: nat, top: nat)
    returns (k: nat)
    requires GoodAlignments(o, s) && SegmentsAre(o, s, |s|, cuts, segments) && top <= |segments| && i < cuts[top]
    ensures k < top && cuts[k] <= i < cuts[k + 1]
    ensures forall j {:trigger cuts[j]} :: 0 <= j < |segments| && cuts[j] <= i < cuts[j + 1] ==> j == k
    decreases top
  {
    assert SegmentIs(o, s, cuts[top - 1], cuts[top], top - 1, segments[top - 1]);
    if i >= cuts[top - 1] { k := top - 1; } else { k := SegmentOf(o, s, cuts, segments, i, top - 1); }
    forall j {:trigger cuts[j]} | 0 <= j < |segments| && cuts[j] <= i < cuts[j + 1] ensures j == k {
      if j < k { CutsAtLeast(o, s, cuts, segments, j + 1, k); }
      if k < j { CutsAtLeast(o, s, cuts, segments, k + 1, j); }
    }
  }

  // ----- the outcome of building is determined -----

  lemma {:induction false} SameCuts(o: BuilderOptions, s: seq<BuilderSection>, c: seq<nat>, x: seq<Segment>,
                                    d: seq<nat>, y: seq<Segment>, k: nat)
    requires GoodAlignments(o, s) && SegmentsAre(o, s, |s|, c, x) && SegmentsAre(o, s, |s|, d, y)
    requires k <= |x| && k <= |y|
    ensures c[k] == d[k]
  {
    if k > 0 {
      SameCuts(o, s, c, x, d, y, k - 1);
      CutNotBefore(o, s, c, x, d, y, k);
      CutNotBefore(o, s, d, y, c, x, k);
    }
  }

  /** A segment does not end before the run of its permissions does. */
  lemma CutNotBefore(o: BuilderOptions, s: seq<BuilderSection>, c: seq<nat>, x: seq<Segment>,
                     d: seq<nat>, y: seq<Segment>, k: nat)
    requires GoodAlignments(o, s) && SegmentsAre(o, s, |s|, c, x) && SegmentsAre(o, s, |s|, d, y)
    requires 0 < k <= |x| && k <= |y| && c[k - 1] == d[k - 1]
    ensures c[k] >= d[k]
  {
    assert SegmentIs(o, s, c[k - 1], c[k], k - 1, x[k - 1]) && SegmentIs(o, s, d[k - 1], d[k], k - 1, y[k - 1]);
    assert k < |x| ==> CutAt(o, s, c, x, k);
  }

  lemma SameSegments(o: BuilderOptions, s: seq<BuilderSection>, c: seq<nat>, x: seq<Segment>, d: seq<nat>,
                     y: seq<Segment>)
    requires GoodAlignments(o, s) && SegmentsAre(o, s, |s|, c, x) && SegmentsAre(o, s, |s|, d, y) && |x| <= |y|
    ensures x == y
  {
    SameCuts(o, s, c, x, d, y, |x|);
    CutsAtLeast(o, s, d, y, |x|, |y|);
    forall k | 0 <= k < |x| ensures x[k] == y[k] {
      SameCuts(o, s, c, x, d, y, k);
      SameCuts(o, s, c, x, d, y, k + 1);
      SameSegment(o, s, c[k], c[k + 1], k, x[k], y[k]);
    }
  }

  lemma SameSegment(o: BuilderOptions, s: seq<BuilderSection>, lo: nat, hi: nat, k: nat, x: Segment, y: Segment)
    requires o.fileAlignment > 0 && o.memoryAlignment > 0
    requires SegmentIs(o, s, lo, hi, k, x) && SegmentIs(o, s, lo, hi, k, y)
    ensures x == y
  {
    assert x.sections == y.sections;
  }

  lemma SameSections(o: BuilderOptions, s: seq<BuilderSection>, x: seq<Section>, y: seq<Section>)
    requires o.fileAlignment > 0 && o.memoryAlignment > 0 && |x| == |y|
    requires SectionsAre(o, s, x) && SectionsAre(o, s, y)
    ensures x == y
  {
    forall i | 0 <= i < |x| ensures x[i] == y[i] { assert SectionIs(o, s, i, x[i]) && SectionIs(o, s, i, y[i]); }
  }

  /** There is one image of some sections, symbols, relocations and imports. */
  lemma BuiltOnce(limits: Limits, o: BuilderOptions, s: seq<BuilderSection>, symbols: seq<Symbol>,
                  relocations: seq<Relocation>, imports: seq<Import>, c: seq<nat>, x: BinaryImage,
                  d: seq<nat>, y: BinaryImage)
    requires Assembled(limits, o, s, symbols, relocations, imports, c, x)
    requires Assembled(limits, o, s, symbols, relocations, imports, d, y)
    ensures x == y
  {
    SameSections(o, s, x.sections, y.sections);
    SameStorage(o, s, |s|, x.fileData.value, y.fileData.value);
    if |x.segments| <= |y.segments| {
      SameSegments(o, s, c, x.segments, d, y.segments);
    } else {
      SameSegments(o, s, d, y.segments, c, x.segments);
    }
  }

  lemma FailsOnce(limits: Limits, o: BuilderOptions, s: seq<BuilderSection>, i: nat, a: ErrorCode, j: nat, b: ErrorCode)
    requires FailsFirst(limits, o, s, i, a) && FailsFirst(limits, o, s, j, b)
    ensures a == b
  {
    assert i == j;
  }

  lemma AssembledMeansPlaced(limits: Limits, o: BuilderOptions, s: seq<BuilderSection>, symbols: seq<Symbol>,
                             relocations: seq<Relocation>, imports: seq<Import>, cuts: seq<nat>, image: BinaryImage,
                             i: nat, code: ErrorCode)
    requires Assembled(limits, o, s, symbols, relocations, imports, cuts, image)
    ensures !FailsFirst(limits, o, s, i, code)
  {
  }

  /** What is assembled is what build comes to. */
  lemma AssembledDecides(limits: Limits, o: BuilderOptions, s: seq<BuilderSection>, symbols: seq<Symbol>,
                         relocations: seq<Relocation>, imports: seq<Import>, c: seq<nat>, image: BinaryImage,
                         d: seq<nat>, r: Result<BinaryImage>)
    requires !OptionsRejected(limits, o) && Assembled(limits, o, s, symbols, relocations, imports, c, image)
    requires BuildOutcome(limits, o, s, symbols, relocations, imports, d, r)
    ensures r == Validated(limits, image)
  {
    if r.Err? && exists i :: FailsFirst(limits, o, s, i, r.code) {
      var i :| FailsFirst(limits, o, s, i, r.code);
      AssembledMeansPlaced(limits, o, s, symbols, relocations, imports, c, image, i, r.code);
    } else {
      var other :| Assembled(limits, o, s, symbols, relocations, imports, d, other) && r == Validated(limits, other);
      BuiltOnce(limits, o, s, symbols, relocations, imports, c, image, d, other);
    }
  }

  /** The sections, symbols, relocations and imports decide what build comes to: it succeeds exactly
      when all sections can be placed and the validator accepts the one image they make. */
  lemma BuildDetermined(limits: Limits, o: BuilderOptions, s: seq<BuilderSection>, symbols: seq<Symbol>,
                        relocations: seq<Relocation>, imports: seq<Import>, c: seq<nat>, x: Result<BinaryImage>,
                        d: seq<nat>, y: Result<BinaryImage>)
    requires BuildOutcome(limits, o, s, symbols, relocations, imports, c, x)
    requires BuildOutcome(limits, o, s, symbols, relocations, imports, d, y)
    ensures x == y
  {
    if OptionsRejected(limits, o) {
    } else if image: BinaryImage :| Assembled(limits, o, s, symbols, relocations, imports, c, image)
                                    && x == Validated(limits, image) {
      AssembledDecides(limits, o, s, symbols, relocations, imports, c, image, d, y);
    } else if image: BinaryImage :| Assembled(limits, o, s, symbols, relocations, imports, d, image)
                                    && y == Validated(limits, image) {
      AssembledDecides(limits, o, s, symbols, relocations, imports, d, image, c, x);
    } else {
      var i :| FailsFirst(limits, o, s, i, x.code);
      var j :| FailsFirst(limits, o, s, j, y.code);
      FailsOnce(limits, o, s, i, x.code, j, y.code);
    }
  }

  // ----- the guards, from the fields -----

  /** The entry point is the address of the first section whose permissions have bit two set; it is zero
      without one. */
  lemma EntryPointMeans(sections: seq<Section>, entry: U64)
    ensures IsEntryPoint(sections, entry) <==>
            || (entry == 0 && forall i {:trigger sections[i]} :: 0 <= i < |sections| ==>
                  sections[i].permissions / 4 % 2 == 0)
            || (exists i {:trigger sections[i]} :: 0 <= i < |sections|
                  && sections[i].permissions / 4 % 2 == 1 && entry == sections[i].virtualAddress
                  && forall j {:trigger sections[j]} :: 0 <= j < i ==> sections[j].permissions / 4 % 2 == 0)
  {
    forall i | 0 <= i < |sections|
      ensures Executable(sections[i].permissions) <==> sections[i].permissions / 4 % 2 == 1
    {
      assert Pow2(2) == 4;
      OneBit(sections[i].permissions, 2);
    }
  }

  /** The options are rejected unless both alignments are powers of two within their limits. */
  lemma OptionsMean(limits: Limits, o: BuilderOptions)
    ensures !OptionsRejected(limits, o) <==>
            && IsPowerOfTwo(o.fileAlignment) && IsPowerOfTwo(o.memoryAlignment)
            && o.fileAlignment <= limits.maxSectionBytes && o.memoryAlignment <= limits.maxMappedBytes
  {
    AlignmentGuard(o.fileAlignment);
    AlignmentGuard(o.memoryAlignment);
  }

  /** A section is rejected unless there is room for it, its name and its data are within the limits, and its
      alignment is a power of two. */
  lemma SectionMeans(limits: Limits, count: nat, x: BuilderSection)
    ensures !SectionRejected(limits, count, x) <==>
            && count < limits.maxSections && |x.name| <= limits.maxStringBytes
            && |x.data| <= limits.maxSectionBytes && IsPowerOfTwo(x.alignment)
  {
    AlignmentGuard(x.alignment);
  }
}
