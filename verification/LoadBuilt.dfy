/** From src/builder.cc to src/loader.cc: when a built image loads without overlap, and which of its
    sections arrive where the builder placed them. */
module LoadBuilt {
  import opened Base
  import opened Builder
  import opened Image
  import opened Landings
  import opened LoadedSegments
  import opened Loader
  import opened Placement
  import opened Regions
  import opened Relocations

  /** The segment loop on an image. */
  function JobOf(limits: Limits, memoryLimits: Limits, image: BinaryImage, bias: U64, enforceWx: bool): SegmentJob
    requires image.fileData.Some?
  {
    SegmentJob(limits, memoryLimits, image.segments, image.fileData.value, bias, enforceWx)
  }

  /** The image that job j loads is made from the sections s. */
  ghost predicate Made(o: BuilderOptions, s: seq<BuilderSection>, cuts: seq<nat>, j: SegmentJob)
  {
    GoodAlignments(o, s) && SegmentsAre(o, s, |s|, cuts, j.segments) && StorageIs(o, s, |s|, j.file)
  }

  lemma BuiltIsMade(built: Limits, o: BuilderOptions, s: seq<BuilderSection>, cuts: seq<nat>, image: BinaryImage,
                    limits: Limits, memoryLimits: Limits, bias: U64, enforceWx: bool)
    requires IsBuilt(built, o, s, cuts, image)
    ensures |cuts| == |image.segments| + 1 && Made(o, s, cuts, JobOf(limits, memoryLimits, image, bias, enforceWx))
  {
  }

  // ----- the segments of a built image -----

  /** Segment k reaches from its first section to the end of its last, in the file and in memory. */
  lemma SegmentShape(o: BuilderOptions, s: seq<BuilderSection>, cuts: seq<nat>, segments: seq<Segment>, k: nat)
    requires GoodAlignments(o, s) && SegmentsAre(o, s, |s|, cuts, segments) && k < |segments|
    ensures cuts[k] < cuts[k + 1] <= |s|
    ensures var x := segments[k];
            && x.fileOffset == FileOffset(o, s, cuts[k]) && x.fileOffset + x.fileSize == FileCursor(o, s, cuts[k + 1])
            && x.virtualAddress == Address(o, s, cuts[k])
            && x.virtualAddress + x.memorySize == MemoryCursor(o, s, cuts[k + 1])
  {
    assert SegmentIs(o, s, cuts[k], cuts[k + 1], k, segments[k]);
  }

  /** An earlier segment ends before a later one begins. */
  lemma SegmentsAscend(o: BuilderOptions, s: seq<BuilderSection>, cuts: seq<nat>, segments: seq<Segment>, j: nat,
                       k: nat)
    requires GoodAlignments(o, s) && SegmentsAre(o, s, |s|, cuts, segments) && j < k < |segments|
    ensures segments[j].virtualAddress + segments[j].memorySize <= segments[k].virtualAddress
  {
    SegmentShape(o, s, cuts, segments, j);
    SegmentShape(o, s, cuts, segments, k);
    CutsAtLeast(o, s, cuts, segments, j + 1, k);
    MemoryGrows(o, s, cuts[j + 1], cuts[k]);
  }

  // ----- pages -----

  /** Sections are aligned to whole pages. */
  ghost predicate OnPages(limits: Limits, o: BuilderOptions)
  {
    IsPowerOfTwo(limits.pageSize) && 0 < limits.pageSize <= o.memoryAlignment
  }

  lemma PowersDivide(a: int, b: int)
    requires IsPowerOfTwo(a) && IsPowerOfTwo(b) && 0 < a <= b
    ensures b % a == 0
  {
    var j: nat :| a == Pow2(j);
    var k: nat :| b == Pow2(k);
    if j <= k { Pow2Divides(j, k); } else { Pow2Divides(k, j); }
  }

  lemma MultipleOfMultiple(x: int, b: int, a: int)
    requires 0 < a && 0 < b && x % b == 0 && b % a == 0
    ensures x % a == 0
  {
    DivMod(x, b);
    DivMod(b, a);
    var q, p := x / b, b / a;
    Distribute(q, p, a);
    MultipleOf(q * p, a);
  }

  lemma SumOfMultiples(x: int, y: int, a: int)
    requires a > 0 && x % a == 0 && y % a == 0
    ensures (x + y) % a == 0
  {
    DivMod(x, a);
    DivMod(y, a);
    assert x + y == (x / a + y / a) * a;
    MultipleOf(x / a + y / a, a);
  }

  /** Segments start on page boundaries. */
  lemma SegmentOnPage(limits: Limits, o: BuilderOptions, s: seq<BuilderSection>, cuts: seq<nat>,
                      segments: seq<Segment>, k: nat)
    requires GoodAlignments(o, s) && OnPages(limits, o) && SegmentsAre(o, s, |s|, cuts, segments) && k < |segments|
    ensures segments[k].virtualAddress % limits.pageSize == 0
  {
    SegmentShape(o, s, cuts, segments, k);
    var a := MemoryAlignment(o, s[cuts[k]]);
    assert IsPowerOfTwo(a);
    PowersDivide(limits.pageSize, a);
    MultipleOfMultiple(Address(o, s, cuts[k]), a, limits.pageSize);
  }

  /** Moved by whole pages, the window of such a segment starts with it, and its size is the segment's,
      rounded up to pages. */
  lemma WindowOnPage(limits: Limits, x: Segment, bias: U64)
    requires IsPowerOfTwo(limits.pageSize) && limits.pageSize > 0
    requires x.virtualAddress % limits.pageSize == 0 && bias % limits.pageSize == 0
    ensures WindowOf(limits, x, bias).Ok? ==>
              && x.virtualAddress + bias < TWO64
              && WindowOf(limits, x, bias).value ==
                 Window(x.virtualAddress + bias, x.virtualAddress + bias, AlignedUp(x.memorySize, limits.pageSize))
  {
    var j: nat :| limits.pageSize == Pow2(j);
    BitClearMask(x.virtualAddress + bias, j);
    SumOfMultiples(x.virtualAddress, bias, limits.pageSize);
    AlignUpExact(x.memorySize, limits.pageSize);
  }

  lemma Between(start: nat, size: nat, page: nat, end: nat)
    requires page > 0 && start % page == 0 && end % page == 0 && start + size <= end
    ensures start + AlignedUp(size, page) <= end
  {
    DivMod(start, page);
    DivMod(end, page);
    var p, q := start / page, end / page;
    assert end - start == (q - p) * page;
    MultipleOf(q - p, page);
    assert MultipleFrom(size, page, end - start);
  }

  // ----- no overlap -----

  /** The pages of two segments do not meet. */
  lemma PagesApart(o: BuilderOptions, s: seq<BuilderSection>, cuts: seq<nat>, j: SegmentJob, i: nat, k: nat)
    requires Made(o, s, cuts, j) && OnPages(j.limits, o) && j.bias % j.limits.pageSize == 0
    requires i < k && Takes(j, i) && Takes(j, k)
    ensures WindowAt(j, i).base + WindowAt(j, i).size <= WindowAt(j, k).base
  {
    var x, y := j.segments[i], j.segments[k];
    SegmentOnPage(j.limits, o, s, cuts, j.segments, i);
    SegmentOnPage(j.limits, o, s, cuts, j.segments, k);
    WindowOnPage(j.limits, x, j.bias);
    WindowOnPage(j.limits, y, j.bias);
    SegmentsAscend(o, s, cuts, j.segments, i, k);
    Between(x.virtualAddress, x.memorySize, j.limits.pageSize, y.virtualAddress);
  }

  /** A built image with sections on whole pages, moved by whole pages, never overlaps itself: if the
      segment loop stops at an overlap, it is with what memory held before. */
  lemma NeverOverlapsItself(o: BuilderOptions, s: seq<BuilderSection>, cuts: seq<nat>, j: SegmentJob, m: RegionMap,
                            trace: seq<RegionMap>)
    requires Made(o, s, cuts, j) && OnPages(j.limits, o) && j.bias % j.limits.pageSize == 0
    requires Runs(j, m, trace) && |trace| <= |j.segments|
    ensures StopVerdict(j, trace) == Failed(MappingOverlap) ==>
              && Takes(j, |trace| - 1)
              && OverlapsAny(m, WindowAt(j, |trace| - 1).base, WindowAt(j, |trace| - 1).size)
  {
    var i := |trace| - 1;
    StopsAtOverlapIff(j, m, trace);
    if Takes(j, i) {
      forall k | 0 <= k < i ensures !Meets(j, k, WindowAt(j, i).base, WindowAt(j, i).size) {
        if Takes(j, k) { PagesApart(o, s, cuts, j, k, i); }
      }
    }
  }

  // ----- the sections arrive -----

  /** Reading a section's memory range gives its data and its zero fill. */
  ghost predicate InPlace(m: RegionMap, a: U64, x: BuilderSection)
  {
    && WellFormed(m) && 0 < x.MemorySize() < TWO64 && Covering(m, a, x.MemorySize()).Some?
    && ReadAt(m, a, x.MemorySize()) == x.data + Zeros(x.zeroFill)
  }

  /** Being held by content with zeros behind it, byte by byte and as a whole. */
  lemma HeldMeans(content: seq<Byte>, size: nat, d: nat, x: BuilderSection)
    requires |content| <= size && d + x.MemorySize() <= size
    ensures HoldsAt(content, d, x) <==>
            (content + Zeros(size - |content|))[d..d + x.MemorySize()] == x.data + Zeros(x.zeroFill)
  {
    var n := x.MemorySize();
    var part, whole := (content + Zeros(size - |content|))[d..d + n], x.data + Zeros(x.zeroFill);
    forall q | 0 <= q < n ensures part[q] == Padded(content, d + q) && whole[q] == SectionByte(x, q) {
    }
    if HoldsAt(content, d, x) {
      forall q | 0 <= q < n ensures part[q] == whole[q] { assert Padded(content, d + q) == SectionByte(x, q); }
    }
  }

  /** Inside a segment that arrived, a section is in place exactly when the segment's bytes hold it. */
  lemma InPlaceMeans(m: RegionMap, address: U64, size: nat, content: seq<Byte>, d: nat, x: BuilderSection)
    requires WellFormed(m) && 0 < size < TWO64 && Covering(m, address, size).Some? && |content| <= size
    requires ReadAt(m, address, size) == content + Zeros(size - |content|)
    requires 0 < x.MemorySize() && d + x.MemorySize() <= size && address + d < TWO64
    ensures InPlace(m, address + d, x) <==> HoldsAt(content, d, x)
  {
    ReadPart(m, address, size, address + d, x.MemorySize());
    HeldMeans(content, size, d, x);
  }

  /** The file bytes of segment k. */
  lemma SegmentContent(o: BuilderOptions, s: seq<BuilderSection>, cuts: seq<nat>, segments: seq<Segment>,
                       file: seq<Byte>, k: nat)
    requires GoodAlignments(o, s) && SegmentsAre(o, s, |s|, cuts, segments) && k < |segments|
    requires StorageIs(o, s, |s|, file)
    ensures cuts[k] < cuts[k + 1] <= |s|
    ensures FileOffset(o, s, cuts[k]) <= FileCursor(o, s, cuts[k + 1]) <= |file|
    ensures segments[k].fileOffset + segments[k].fileSize <= |file|
    ensures Content(segments[k], file) == SegmentBytes(o, s, cuts[k], cuts[k + 1], file)
  {
    SegmentShape(o, s, cuts, segments, k);
    SegmentInFile(o, s, cuts[k], cuts[k + 1], file);
  }

  /** Whatever is to stand d bytes into a segment that stands is in place there exactly when the segment's
      file bytes hold it. */
  lemma PartArrives(j: SegmentJob, k: nat, n: RegionMap, d: nat, x: BuilderSection, a: U64)
    requires SegmentStands(j, k, n) && a == j.segments[k].virtualAddress + j.bias + d
    requires 0 < x.MemorySize() && d + x.MemorySize() <= j.segments[k].memorySize
    ensures InPlace(n, a, x) <==> HoldsAt(Content(j.segments[k], j.file), d, x)
  {
    InPlaceMeans(n, j.segments[k].virtualAddress + j.bias, j.segments[k].memorySize,
                 Content(j.segments[k], j.file), d, x);
  }

  /** Section i takes memory and is one of the sections between cuts k and k + 1. */
  predicate Belongs(s: seq<BuilderSection>, cuts: seq<nat>, k: int, i: int)
  {
    0 <= k < |cuts| - 1 && cuts[k] <= i < cuts[k + 1] <= |s| && s[i].MemorySize() > 0
  }

  /** The part of segment k that section i is: d bytes into it. */
  lemma SectionPart(o: BuilderOptions, s: seq<BuilderSection>, cuts: seq<nat>, segments: seq<Segment>, k: nat, i: nat)
    returns (d: nat)
    requires GoodAlignments(o, s) && SegmentsAre(o, s, |s|, cuts, segments) && Belongs(s, cuts, k, i)
    ensures k < |segments| && Address(o, s, cuts[k]) + d == Address(o, s, i) == segments[k].virtualAddress + d
    ensures d + s[i].MemorySize() <= segments[k].memorySize
  {
    SegmentShape(o, s, cuts, segments, k);
    SegmentEncloses(o, s, cuts, segments, k, i);
    d := Address(o, s, i) - segments[k].virtualAddress;
  }

  /** A section that lands is held by its segment's bytes; one whose data can be told apart is held only
      if it lands. */
  lemma LandsMeans(o: BuilderOptions, s: seq<BuilderSection>, lo: nat, hi: nat, file: seq<Byte>, i: nat, b: Byte,
                   d: nat)
    requires lo <= i < hi <= |s| && o.fileAlignment > 0 && o.memoryAlignment > 0 && StorageIs(o, s, |s|, file)
    requires FileOffset(o, s, lo) <= FileCursor(o, s, hi) <= |file| && s[i].MemorySize() > 0
    requires Address(o, s, lo) + d == Address(o, s, i)
    ensures Lands(o, s, lo, hi, i) ==> HoldsAt(SegmentBytes(o, s, lo, hi, file), d, s[i])
    ensures Marked(s, i, b) && HoldsAt(SegmentBytes(o, s, lo, hi, file), d, s[i]) ==> Lands(o, s, lo, hi, i)
  {
    var from := FileOffset(o, s, lo) + d;
    assert from == Landing(o, s, lo, i);
    if AtHome(o, s, lo, hi, i, from) { HomeHolds(o, s, lo, hi, file, i, from); }
    if Marked(s, i, b) { MarkedHoldsIff(o, s, lo, hi, file, i, b, from); }
  }

  /** Where segment k stands in memory n, section i is in place at its displaced address if it lands in the
      segment, and only if it does when its data can be told apart. */
  lemma SectionStands(o: BuilderOptions, s: seq<BuilderSection>, cuts: seq<nat>, j: SegmentJob, k: nat, i: nat,
                      n: RegionMap, b: Byte, a: U64)
    requires Made(o, s, cuts, j) && SegmentStands(j, k, n) && Belongs(s, cuts, k, i) && a == Address(o, s, i) + j.bias
    ensures Lands(o, s, cuts[k], cuts[k + 1], i) ==> InPlace(n, a, s[i])
    ensures Marked(s, i, b) && InPlace(n, a, s[i]) ==> Lands(o, s, cuts[k], cuts[k + 1], i)
  {
    var d := SectionPart(o, s, cuts, j.segments, k, i);
    SegmentContent(o, s, cuts, j.segments, j.file, k);
    PartArrives(j, k, n, d, s[i], a);
    LandsMeans(o, s, cuts[k], cuts[k + 1], j.file, i, b, d);
  }

  /** Its segment takes memory, so it stands from the turn that maps it on. */
  lemma SectionSegment(o: BuilderOptions, s: seq<BuilderSection>, cuts: seq<nat>, j: SegmentJob, m: RegionMap,
                       trace: seq<RegionMap>, k: nat, i: nat, n: nat)
    requires Made(o, s, cuts, j) && Runs(j, m, trace) && k < n < |trace| && Belongs(s, cuts, k, i)
    ensures SegmentStands(j, k, trace[n]) && Address(o, s, i) + j.bias < TWO64
  {
    var d := SectionPart(o, s, cuts, j.segments, k, i);
    SegmentArrives(j, m, trace, k, n);
  }

  /** From the turn that maps its segment on, section i is in place at its displaced address if it lands
      in its segment, and only if it does when its data can be told apart. */
  lemma SectionArrives(o: BuilderOptions, s: seq<BuilderSection>, cuts: seq<nat>, j: SegmentJob, m: RegionMap,
                       trace: seq<RegionMap>, k: nat, i: nat, n: nat, b: Byte)
    requires Made(o, s, cuts, j) && Runs(j, m, trace) && k < n < |trace| && Belongs(s, cuts, k, i)
    ensures Address(o, s, i) + j.bias < TWO64
    ensures Lands(o, s, cuts[k], cuts[k + 1], i) ==> InPlace(trace[n], Address(o, s, i) + j.bias, s[i])
    ensures Marked(s, i, b) && InPlace(trace[n], Address(o, s, i) + j.bias, s[i]) ==>
              Lands(o, s, cuts[k], cuts[k + 1], i)
  {
    SectionSegment(o, s, cuts, j, m, trace, k, i, n);
    SectionStands(o, s, cuts, j, k, i, trace[n], b, Address(o, s, i) + j.bias);
  }

  // ----- the outcome of the load -----

  lemma {:induction false} SectionErrorKinds(sections: seq<Section>, n: nat, fileSize: U64)
    ensures FirstSectionError(sections, n, fileSize) != Some(MappingOverlap)
    decreases |sections|
  {
    if sections != [] { SectionErrorKinds(sections[1..], n + 1, fileSize); }
  }

  lemma {:induction false} SegmentErrorKinds(segments: seq<Segment>, fileSize: U64)
    ensures FirstSegmentError(segments, fileSize) != Some(MappingOverlap)
  {
    if segments != [] { SegmentErrorKinds(segments[1..], fileSize); }
  }

  lemma ValidatorErrorKinds(limits: Limits, image: BinaryImage)
    ensures FirstError(limits, image) != Some(MappingOverlap)
  {
    if image.fileData.Some? && |image.fileData.value| <= limits.maxFileSize {
      SectionErrorKinds(image.sections, 0, |image.fileData.value|);
      SegmentErrorKinds(image.segments, |image.fileData.value|);
    }
  }

  ghost predicate NoOverlapErrors(outcomes: seq<Outcome>)
  {
    forall i {:trigger outcomes[i]} :: 0 <= i < |outcomes| ==> outcomes[i] != Err(MappingOverlap)
  }

  lemma {:induction false} VerdictKinds(m: RegionMap, outcomes: seq<Outcome>, i: nat)
    requires i <= |outcomes| && NoOverlapErrors(outcomes)
    ensures VerdictFrom(m, outcomes, i) != Failed(MappingOverlap)
    decreases |outcomes| - i
  {
    if i < |outcomes| {
      assert outcomes[i] != Err(MappingOverlap);
      VerdictKinds(m, outcomes, i + 1);
    }
  }

  /** Relocations and imports write to what is mapped; they map nothing. */
  lemma FinishErrorKinds(limits: Limits, image: BinaryImage, options: LoadOptions, bias: U64,
                         resolver: Option<Resolver>, m: RegionMap)
    ensures FinishVerdict(limits, image, options, bias, resolver, m) != Failed(MappingOverlap)
  {
    VerdictKinds(m, OutcomesFor(image, bias, resolver), 0);
    VerdictKinds(m, ImportsFor(image, bias, resolver), 0);
  }

  /** What load promises of a valid image: a run of the segment loop, and how it goes on. */
  lemma LoadRuns(limits: Limits, memoryLimits: Limits, image: BinaryImage, options: LoadOptions,
                 resolver: Option<Resolver>, originalBase: U64, start: RegionMap, loaded: seq<RegionMap>,
                 end: RegionMap, r: Result<LoadResult>)
    requires FirstError(limits, image).None? && WellFormed(start)
    requires LoadOutcome(limits, memoryLimits, image, options, resolver, originalBase, start, loaded, end, r)
    ensures image.fileData.Some?
    ensures var j := JobOf(limits, memoryLimits, image, Bias(options, originalBase), options.enforceWx);
            && Runs(j, start, loaded)
            && (|loaded| <= |image.segments| ==>
                  r.Err? && Failed(r.code) == StopVerdict(j, loaded) && end == loaded[|loaded| - 1])
  {
  }

  /** Loading a built image with sections on whole pages, moved by whole pages, into empty memory never
      reports an overlap. */
  lemma LoadNeverOverlaps(built: Limits, limits: Limits, memoryLimits: Limits, o: BuilderOptions,
                          s: seq<BuilderSection>, cuts: seq<nat>, image: BinaryImage, options: LoadOptions,
                          resolver: Option<Resolver>, originalBase: U64, loaded: seq<RegionMap>, end: RegionMap,
                          r: Result<LoadResult>)
    requires IsBuilt(built, o, s, cuts, image) && OnPages(limits, o)
    requires FirstError(limits, image).None? ==> Bias(options, originalBase) % limits.pageSize == 0
    requires LoadOutcome(limits, memoryLimits, image, options, resolver, originalBase, map[], loaded, end, r)
    ensures r != Err(MappingOverlap)
  {
    ValidatorErrorKinds(limits, image);
    if FirstError(limits, image).None? {
      var bias := Bias(options, originalBase);
      LoadRuns(limits, memoryLimits, image, options, resolver, originalBase, map[], loaded, end, r);
      if |loaded| <= |image.segments| {
        var j := JobOf(limits, memoryLimits, image, bias, options.enforceWx);
        BuiltIsMade(built, o, s, cuts, image, limits, memoryLimits, bias, options.enforceWx);
        NeverOverlapsItself(o, s, cuts, j, map[], loaded);
      } else {
        FinishErrorKinds(limits, image, options, bias, resolver, loaded[|loaded| - 1]);
      }
    }
  }

  /** Every section that takes memory and lands in its segment stands at its displaced address. */
  ghost predicate LandedInPlace(o: BuilderOptions, s: seq<BuilderSection>, cuts: seq<nat>, bias: U64, m: RegionMap)
    requires o.fileAlignment > 0 && o.memoryAlignment > 0
  {
    forall k, i {:trigger Belongs(s, cuts, k, i)} :: Belongs(s, cuts, k, i) && Lands(o, s, cuts[k], cuts[k + 1], i) ==>
      Address(o, s, i) + bias < TWO64 && InPlace(m, Address(o, s, i) + bias, s[i])
  }

  /** No other section stands there if its data can be told apart. */
  ghost predicate OthersMiss(o: BuilderOptions, s: seq<BuilderSection>, cuts: seq<nat>, bias: U64, m: RegionMap)
    requires o.fileAlignment > 0 && o.memoryAlignment > 0
  {
    forall k, i, b {:trigger Belongs(s, cuts, k, i), Marked(s, i, b)} ::
      Belongs(s, cuts, k, i) && Marked(s, i, b) && !Lands(o, s, cuts[k], cuts[k + 1], i) ==>
        Address(o, s, i) + bias < TWO64 && !InPlace(m, Address(o, s, i) + bias, s[i])
  }

  /** Once the load of a built image has mapped all segments, wherever it starts and whatever its base,
      the sections that land are in place, and no others if their data can be told apart. */
  lemma BuiltImageLoads(built: Limits, limits: Limits, memoryLimits: Limits, o: BuilderOptions,
                        s: seq<BuilderSection>, cuts: seq<nat>, image: BinaryImage, options: LoadOptions,
                        resolver: Option<Resolver>, originalBase: U64, start: RegionMap, loaded: seq<RegionMap>,
                        end: RegionMap, r: Result<LoadResult>)
    requires IsBuilt(built, o, s, cuts, image) && WellFormed(start)
    requires LoadOutcome(limits, memoryLimits, image, options, resolver, originalBase, start, loaded, end, r)
    requires FirstError(limits, image).None? && |loaded| == |image.segments| + 1
    ensures LandedInPlace(o, s, cuts, Bias(options, originalBase), loaded[|loaded| - 1])
    ensures OthersMiss(o, s, cuts, Bias(options, originalBase), loaded[|loaded| - 1])
  {
    var j := JobOf(limits, memoryLimits, image, Bias(options, originalBase), options.enforceWx);
    LoadRuns(limits, memoryLimits, image, options, resolver, originalBase, start, loaded, end, r);
    BuiltIsMade(built, o, s, cuts, image, limits, memoryLimits, j.bias, options.enforceWx);
    RunLands(o, s, cuts, j, start, loaded);
    RunMisses(o, s, cuts, j, start, loaded);
  }

  lemma RunLands(o: BuilderOptions, s: seq<BuilderSection>, cuts: seq<nat>, j: SegmentJob, m: RegionMap,
                 trace: seq<RegionMap>)
    requires Made(o, s, cuts, j) && Runs(j, m, trace) && |trace| == |j.segments| + 1
    ensures LandedInPlace(o, s, cuts, j.bias, trace[|trace| - 1])
  {
    forall k, i {:trigger Belongs(s, cuts, k, i)} | Belongs(s, cuts, k, i) && Lands(o, s, cuts[k], cuts[k + 1], i)
      ensures Address(o, s, i) + j.bias < TWO64 && InPlace(trace[|trace| - 1], Address(o, s, i) + j.bias, s[i])
    {
      SectionArrives(o, s, cuts, j, m, trace, k, i, |trace| - 1, 0);
    }
  }

  lemma RunMisses(o: BuilderOptions, s: seq<BuilderSection>, cuts: seq<nat>, j: SegmentJob, m: RegionMap,
                  trace: seq<RegionMap>)
    requires Made(o, s, cuts, j) && Runs(j, m, trace) && |trace| == |j.segments| + 1
    ensures OthersMiss(o, s, cuts, j.bias, trace[|trace| - 1])
  {
    forall k, i, b {:trigger Belongs(s, cuts, k, i), Marked(s, i, b)} |
        Belongs(s, cuts, k, i) && Marked(s, i, b) && !Lands(o, s, cuts[k], cuts[k + 1], i)
      ensures Address(o, s, i) + j.bias < TWO64 && !InPlace(trace[|trace| - 1], Address(o, s, i) + j.bias, s[i])
    {
      SectionArrives(o, s, cuts, j, m, trace, k, i, |trace| - 1, b);
    }
  }

  /** The load of a valid image succeeds exactly when all segments are mapped, everything asked for applies
      and the entry point fits, as it does at the image's own base. */
  lemma LoadSucceedsIff(limits: Limits, memoryLimits: Limits, image: BinaryImage, options: LoadOptions,
                        resolver: Option<Resolver>, originalBase: U64, start: RegionMap, loaded: seq<RegionMap>,
                        end: RegionMap, r: Result<LoadResult>)
    requires LoadOutcome(limits, memoryLimits, image, options, resolver, originalBase, start, loaded, end, r)
    requires FirstError(limits, image).None?
    ensures var bias := Bias(options, originalBase);
            && (r.Ok? <==>
                  && |loaded| == |image.segments| + 1
                  && FinishVerdict(limits, image, options, bias, resolver, loaded[|loaded| - 1]).Done?
                  && Loader.EntryPoint(image, originalBase, bias).Some?)
            && (bias == 0 ==> Loader.EntryPoint(image, originalBase, bias).Some?)
  {
  }

  /** A load without relocations and imports succeeds only if all segments were mapped, and leaves memory
      so; it then fails only for an entry point that overflows. */
  lemma PlainLoad(limits: Limits, memoryLimits: Limits, image: BinaryImage, options: LoadOptions,
                  resolver: Option<Resolver>, originalBase: U64, start: RegionMap, loaded: seq<RegionMap>,
                  end: RegionMap, r: Result<LoadResult>)
    requires LoadOutcome(limits, memoryLimits, image, options, resolver, originalBase, start, loaded, end, r)
    requires FirstError(limits, image).None? && !options.applyRelocations && !options.resolveImports
    ensures r.Ok? <==>
              && |loaded| == |image.segments| + 1
              && Loader.EntryPoint(image, originalBase, Bias(options, originalBase)).Some?
    ensures r.Ok? ==> end == loaded[|loaded| - 1]
  {
  }

  /** It ran through all segments of the image. */
  lemma PlainRun(built: Limits, limits: Limits, memoryLimits: Limits, o: BuilderOptions, s: seq<BuilderSection>,
                 cuts: seq<nat>, image: BinaryImage, options: LoadOptions, resolver: Option<Resolver>,
                 originalBase: U64, start: RegionMap, loaded: seq<RegionMap>, end: RegionMap, r: Result<LoadResult>)
    returns (j: SegmentJob)
    requires IsBuilt(built, o, s, cuts, image) && WellFormed(start) && r.Ok?
    requires LoadOutcome(limits, memoryLimits, image, options, resolver, originalBase, start, loaded, end, r)
    requires !options.applyRelocations && !options.resolveImports
    ensures Made(o, s, cuts, j) && Runs(j, start, loaded) && j.bias == Bias(options, originalBase)
    ensures |loaded| == |j.segments| + 1 && end == loaded[|loaded| - 1]
  {
    j := JobOf(limits, memoryLimits, image, Bias(options, originalBase), options.enforceWx);
    PlainLoad(limits, memoryLimits, image, options, resolver, originalBase, start, loaded, end, r);
    LoadRuns(limits, memoryLimits, image, options, resolver, originalBase, start, loaded, end, r);
    BuiltIsMade(built, o, s, cuts, image, limits, memoryLimits, j.bias, options.enforceWx);
  }

  /** End to end: a successful load of a built image, without relocations and imports, leaves memory in
      which every section that lands stands at its displaced address, and no other whose data can be told
      apart. */
  lemma BuiltImageStands(built: Limits, limits: Limits, memoryLimits: Limits, o: BuilderOptions,
                         s: seq<BuilderSection>, cuts: seq<nat>, image: BinaryImage, options: LoadOptions,
                         resolver: Option<Resolver>, originalBase: U64, start: RegionMap, loaded: seq<RegionMap>,
                         end: RegionMap, r: Result<LoadResult>)
    requires IsBuilt(built, o, s, cuts, image) && WellFormed(start) && r.Ok?
    requires LoadOutcome(limits, memoryLimits, image, options, resolver, originalBase, start, loaded, end, r)
    requires !options.applyRelocations && !options.resolveImports
    ensures LandedInPlace(o, s, cuts, Bias(options, originalBase), end)
    ensures OthersMiss(o, s, cuts, Bias(options, originalBase), end)
  {
    var j := PlainRun(built, limits, memoryLimits, o, s, cuts, image, options, resolver, originalBase, start, loaded,
                      end, r);
    RunLands(o, s, cuts, j, start, loaded);
    RunMisses(o, s, cuts, j, start, loaded);
  }

  /** With one section per segment, every section lands. */
  lemma AllLand(o: BuilderOptions, s: seq<BuilderSection>, cuts: seq<nat>, segments: seq<Segment>, k: nat)
    requires GoodAlignments(o, s) && SegmentsAre(o, s, |s|, cuts, segments) && |segments| == |s| && k < |s|
    ensures cuts[k] == k && cuts[k + 1] == k + 1 && Lands(o, s, cuts[k], cuts[k + 1], k)
  {
    CutsAtLeast(o, s, cuts, segments, 0, k);
    CutsAtLeast(o, s, cuts, segments, k, k + 1);
    CutsAtLeast(o, s, cuts, segments, k + 1, |s|);
    AloneLands(o, s, k);
  }

  // ----- a section that does not arrive -----

  ghost predicate SamePermissions(s: seq<BuilderSection>)
  {
    forall i, k {:trigger s[i], s[k]} :: 0 <= i < |s| && 0 <= k < |s| ==> s[i].permissions == s[k].permissions
  }

  /** Sections of equal permissions share one segment. */
  lemma OneSegment(o: BuilderOptions, s: seq<BuilderSection>, cuts: seq<nat>, segments: seq<Segment>)
    requires GoodAlignments(o, s) && SegmentsAre(o, s, |s|, cuts, segments) && s != [] && SamePermissions(s)
    ensures |segments| == 1 && cuts[0] == 0 && cuts[1] == |s|
  {
    SegmentShape(o, s, cuts, segments, 0);
    assert |segments| > 1 ==> CutAt(o, s, cuts, segments, 1);
  }

  /** Sections p and p + 1 have one byte of data each, packed in the file and on pages of 4096 bytes in
      memory; no other data is like the second one's. */
  ghost predicate Packed(o: BuilderOptions, s: seq<BuilderSection>, p: nat)
  {
    && o.fileAlignment == 1 && o.memoryAlignment == 4096 && p + 1 < |s|
    && s[p].data == [1] && s[p + 1].data == [2] && s[p].zeroFill == s[p + 1].zeroFill == 0
    && s[p].alignment == s[p + 1].alignment == 1 && Marked(s, p + 1, 2)
  }

  lemma OffsetUnaligned(o: BuilderOptions, s: seq<BuilderSection>, i: nat)
    requires i < |s| && o.fileAlignment > 0 && FileAlignment(o, s[i]) == 1
    ensures FileOffset(o, s, i) == FileCursor(o, s, i)
  {
  }

  lemma AddressAligned(o: BuilderOptions, s: seq<BuilderSection>, i: nat)
    requires i < |s| && o.memoryAlignment > 0
    ensures Address(o, s, i) % MemoryAlignment(o, s[i]) == 0 && MemoryCursor(o, s, i) <= Address(o, s, i)
  {
  }

  lemma NextMultiple(x: int, y: int, a: int)
    requires a > 0 && x % a == 0 && y % a == 0 && x < y
    ensures x + a <= y
  {
    DivMod(x, a);
    DivMod(y, a);
    QuotientGap(x / a, y / a, a);
  }

  /** Memory has a page between them where the file has one byte. */
  lemma PackedPlaces(o: BuilderOptions, s: seq<BuilderSection>, p: nat, i: nat, a: int)
    requires Packed(o, s, p) && i == p + 1 && a == MemoryAlignment(o, s[p]) == MemoryAlignment(o, s[i]) && a > 1
    ensures FileOffset(o, s, i) == FileOffset(o, s, p) + 1 && Address(o, s, i) >= Address(o, s, p) + a
  {
    OffsetUnaligned(o, s, i);
    AddressAligned(o, s, p);
    AddressAligned(o, s, i);
    NextMultiple(Address(o, s, p), Address(o, s, i), a);
  }

  lemma PackedDoesNotLand(o: BuilderOptions, s: seq<BuilderSection>, p: nat, i: nat, hi: nat)
    requires Packed(o, s, p) && i == p + 1 < hi <= |s|
    ensures !Lands(o, s, p, hi, i)
  {
    PackedPlaces(o, s, p, i, 4096);
  }

  /** Wherever an image is loaded whose segment starts with such sections, the second one is not in place:
      the segment is copied as a whole. */
  lemma PackedSectionMisses(o: BuilderOptions, s: seq<BuilderSection>, cuts: seq<nat>, segments: seq<Segment>,
                            bias: U64, m: RegionMap, k: nat, p: nat, i: nat)
    requires GoodAlignments(o, s) && SegmentsAre(o, s, |s|, cuts, segments) && OthersMiss(o, s, cuts, bias, m)
    requires k < |segments| && p == cuts[k] && i == p + 1 < cuts[k + 1] <= |s| && Packed(o, s, p)
    ensures Address(o, s, i) + bias < TWO64 && !InPlace(m, Address(o, s, i) + bias, s[i])
  {
    PackedDoesNotLand(o, s, p, i, cuts[k + 1]);
    assert Belongs(s, cuts, k, i) && Marked(s, i, 2);
  }

  const PACKED_OPTIONS := BuilderOptions(8, Little, 0, 1, 4096, true)
  const PACKED_PAIR: seq<BuilderSection> :=
    [BuilderSection([97], ProgramBits, 1, 1, [1], 0), BuilderSection([98], ProgramBits, 1, 1, [2], 0)]

  /** Two sections of this kind, with alignments that the builder accepts. */
  lemma PairIsPacked(o: BuilderOptions, s: seq<BuilderSection>)
    requires o == PACKED_OPTIONS && s == PACKED_PAIR
    ensures GoodAlignments(o, s) && SamePermissions(s) && Packed(o, s, 0)
  {
    assert Pow2(0) == 1 && Pow2(12) == 4096;
  }

  /** So the second section of the pair is never in place. */
  lemma PairMisses(o: BuilderOptions, s: seq<BuilderSection>, cuts: seq<nat>, segments: seq<Segment>, bias: U64,
                   m: RegionMap, p: nat, i: nat)
    requires o == PACKED_OPTIONS && s == PACKED_PAIR && p == 0 && i == 1
    requires SegmentsAre(o, s, |s|, cuts, segments) && OthersMiss(o, s, cuts, bias, m)
    ensures Address(o, s, i) + bias < TWO64 && !InPlace(m, Address(o, s, i) + bias, s[i])
  {
    PairIsPacked(o, s);
    OneSegment(o, s, cuts, segments);
    PackedSectionMisses(o, s, cuts, segments, bias, m, p, p, i);
  }
}
