/** BinaryLoader::load of src/loader.cc. */
module Loader {
  import opened AddressSpaces
  import opened Base
  import opened Image
  import Layout
  import opened Regions
  import opened Relocations

  datatype LoadOptions = LoadOptions(preferredBase: U64, applyRelocations: bool, resolveImports: bool, enforceWx: bool)

  datatype LoadResult = LoadResult(
    loadBase: U64, entryPoint: U64, mappedBytes: U64, relocationsApplied: nat, importsResolved: nat)

  // ----- where a segment goes -----

  /** uint64_t(page_size - 1), computed in 32 bits. */
  function PageMask(limits: Limits): U32
  {
    if limits.pageSize == 0 then 0xFFFF_FFFF else limits.pageSize - 1
  }

  /** The pages around a segment: its address, their base and their size. */
  datatype Window = Window(address: U64, base: U64, size: U64)

  function WindowOf(limits: Limits, s: Segment, bias: U64): (r: Result<Window>)
    ensures r.Ok? ==> var w := r.value;
              w.address == s.virtualAddress + bias && w.base <= w.address
              && w.address - w.base + s.memorySize <= w.size
    ensures r.Err? ==> r.code == AddressOverflow
  {
    match CheckedAdd(s.virtualAddress, bias)
    case None => Err(AddressOverflow)
    case Some(address) =>
      BitClearBound(address, PageMask(limits));
      var base := BitClear(address, PageMask(limits));
      match CheckedAdd(address - base, s.memorySize)
      case None => Err(AddressOverflow)
      case Some(total) =>
        match CheckedAlignUp(total, limits.pageSize)
        case None => Err(AddressOverflow)
        case Some(size) =>
          AlignUpIsLeastMultiple(total, limits.pageSize);
          Ok(Window(address, base, size))
  }

  /** permissions | permission_write, without permission_execute under enforce_wx. */
  function InitialPermissions(permissions: Byte, enforceWx: bool): Byte
  {
    var initial := if permissions / 2 % 2 == 1 then permissions else permissions + 2;
    if enforceWx && initial / 4 % 2 == 1 then initial - 4 else initial
  }

  const NAME_PREFIX: Text := [0x73, 0x65, 0x67, 0x6D, 0x65, 0x6E, 0x74, 0x2E]  // "segment."

  function Decimal(n: nat): Text
  {
    (if n < 10 then [] else Decimal(n / 10)) + [48 + n % 10]
  }

  /** The bytes of the file that a segment loads. */
  function Content(s: Segment, file: seq<Byte>): seq<Byte>
    requires s.fileOffset + s.fileSize <= |file|
  {
    file[s.fileOffset..s.fileOffset + s.fileSize]
  }

  /** Every segment has its bytes in the file, and no more of them than it occupies in memory. */
  predicate Backed(segments: seq<Segment>, file: seq<Byte>)
  {
    |file| < TWO64
    && forall i {:trigger segments[i]} :: 0 <= i < |segments| ==>
         segments[i].fileOffset + segments[i].fileSize <= |file| && segments[i].fileSize <= segments[i].memorySize
  }

  /** The region a segment becomes: its file bytes at its address, zeros around them. */
  function SegmentRegion(s: Segment, w: Window, enforceWx: bool, content: seq<Byte>): MemoryRegion
    requires w.base <= w.address && w.address - w.base + |content| <= w.size
  {
    MemoryRegion(w.base, w.size, InitialPermissions(s.permissions, enforceWx), NAME_PREFIX + Decimal(s.index),
                 Splice(Zeros(w.size), w.address - w.base, content))
  }

  // ----- the segment loop -----

  /** Whether segment s can be mapped into m, of which mapped bytes are in use. */
  ghost function SegmentVerdict(limits: Limits, memoryLimits: Limits, m: RegionMap, mapped: nat, s: Segment,
                                bias: U64): Status
  {
    if s.memorySize == 0 then Done
    else
      match WindowOf(limits, s, bias)
      case Err(code) => Failed(code)
      case Ok(w) => MapVerdict(memoryLimits, m, mapped, w.base, w.size)
  }

  /** Memory after segment s; a segment of no size leaves it alone. */
  function WithSegment(limits: Limits, m: RegionMap, s: Segment, bias: U64, enforceWx: bool,
                       content: seq<Byte>): RegionMap
    requires |content| <= s.memorySize
  {
    if s.memorySize == 0 || WindowOf(limits, s, bias).Err? then m
    else
      var w := WindowOf(limits, s, bias).value;
      m[w.base := SegmentRegion(s, w, enforceWx, content)]
  }

  function WindowSize(limits: Limits, s: Segment, bias: U64): nat
  {
    if s.memorySize == 0 || WindowOf(limits, s, bias).Err? then 0 else WindowOf(limits, s, bias).value.size
  }

  lemma MappedThenFilled(m: RegionMap, w: Window, region: MemoryRegion, content: seq<Byte>)
    requires WellFormed(m) && RegionOk(w.base, region) && region.size == w.size && region.bytes == Zeros(w.size)
    requires !OverlapsAny(m, w.base, w.size) && 0 < |content| < TWO64
    requires w.base <= w.address && w.address - w.base + |content| <= w.size
    ensures var n := m[w.base := region];
            && WellFormed(n) && Covering(n, w.address, |content|) == Some(w.base)
            && WriteAt(n, w.address, content) ==
               m[w.base := region.(bytes := Splice(region.bytes, w.address - w.base, content))]
  {
    var n := m[w.base := region];
    MapKeeps(m, w.base, region);
    CoveringFinds(n, w.address, |content|, w.base);
  }

  /** The freshly mapped region becomes the segment's, by writing its content if it has any. */
  lemma SegmentFilled(limits: Limits, m: RegionMap, s: Segment, bias: U64, w: Window, region: MemoryRegion,
                      enforceWx: bool, content: seq<Byte>)
    requires WellFormed(m) && |content| <= s.memorySize && s.memorySize > 0 && WindowOf(limits, s, bias) == Ok(w)
    requires region == SegmentRegion(s, w, enforceWx, content).(bytes := Zeros(w.size)) && RegionOk(w.base, region)
    requires !OverlapsAny(m, w.base, w.size)
    ensures var n := m[w.base := region];
            && WellFormed(n)
            && if content == [] then n == WithSegment(limits, m, s, bias, enforceWx, content)
               else
                 && Covering(n, w.address, |content|) == Some(w.base)
                 && WriteAt(n, w.address, content) == WithSegment(limits, m, s, bias, enforceWx, content)
  {
    MapKeeps(m, w.base, region);
    if content == [] {
      assert Splice(Zeros(w.size), w.address - w.base, content) == Zeros(w.size);
    } else {
      MappedThenFilled(m, w, region, content);
    }
  }

  /** The body of the segment loop. */
  method MapSegment(limits: Limits, memory: AddressSpace, s: Segment, bias: U64, enforceWx: bool, content: seq<Byte>)
    returns (r: Status, size: nat)
    requires memory.Valid() && |content| == s.fileSize <= s.memorySize
    modifies memory
    ensures memory.Valid() && memory.limits == old(memory.limits)
    ensures r == SegmentVerdict(limits, memory.limits, old(memory.regions), old(memory.mappedBytes), s, bias)
    ensures r.Done? ==> memory.regions == WithSegment(limits, old(memory.regions), s, bias, enforceWx, content)
                        && size == WindowSize(limits, s, bias)
                        && memory.mappedBytes == old(memory.mappedBytes) + size
    ensures r.Failed? ==> memory.regions == old(memory.regions) && memory.mappedBytes == old(memory.mappedBytes)
  {
    size := 0;
    if s.memorySize == 0 { return Done, 0; }
    var window := WindowOf(limits, s, bias);
    if window.Err? { return Failed(window.code), 0; }
    var w := window.value;
    var initial := InitialPermissions(s.permissions, enforceWx);
    ghost var before := memory.regions;
    r := memory.Map(w.base, w.size, initial, NAME_PREFIX + Decimal(s.index));
    if r.Failed? { return; }
    size := w.size;
    SegmentFilled(limits, before, s, bias, w, memory.regions[w.base], enforceWx, content);
    if s.fileSize > 0 { r := memory.Write(w.address, content, true); }
  }

  /** Memory number i + 1 is memory number i with segment i mapped and filled. */
  ghost predicate LoadStep(limits: Limits, memoryLimits: Limits, segments: seq<Segment>, file: seq<Byte>, bias: U64,
                           enforceWx: bool, trace: seq<RegionMap>, i: nat)
    requires Backed(segments, file) && i < |segments| && i + 1 < |trace|
  {
    && SegmentVerdict(limits, memoryLimits, trace[i], TotalSize(trace[i]), segments[i], bias).Done?
    && trace[i + 1] == WithSegment(limits, trace[i], segments[i], bias, enforceWx, Content(segments[i], file))
  }

  /** The memories the segment loop goes through, from m on. */
  ghost predicate LoadRun(limits: Limits, memoryLimits: Limits, segments: seq<Segment>, file: seq<Byte>, bias: U64,
                          enforceWx: bool, m: RegionMap, trace: seq<RegionMap>)
    requires Backed(segments, file)
  {
    && 0 < |trace| <= |segments| + 1 && trace[0] == m
    && forall i {:trigger LoadStep(limits, memoryLimits, segments, file, bias, enforceWx, trace, i)} ::
         0 <= i < |trace| - 1 ==> LoadStep(limits, memoryLimits, segments, file, bias, enforceWx, trace, i)
  }

  lemma LoadGoesOn(limits: Limits, memoryLimits: Limits, segments: seq<Segment>, file: seq<Byte>, bias: U64,
                   enforceWx: bool, m: RegionMap, trace: seq<RegionMap>, next: RegionMap)
    requires Backed(segments, file) && LoadRun(limits, memoryLimits, segments, file, bias, enforceWx, m, trace)
    requires |trace| <= |segments|
    requires var i := |trace| - 1;
             && SegmentVerdict(limits, memoryLimits, trace[i], TotalSize(trace[i]), segments[i], bias).Done?
             && next == WithSegment(limits, trace[i], segments[i], bias, enforceWx, Content(segments[i], file))
    ensures LoadRun(limits, memoryLimits, segments, file, bias, enforceWx, m, trace + [next])
  {
    var longer := trace + [next];
    forall i | 0 <= i < |longer| - 1
      ensures LoadStep(limits, memoryLimits, segments, file, bias, enforceWx, longer, i)
    {
      if i < |trace| - 1 { assert LoadStep(limits, memoryLimits, segments, file, bias, enforceWx, trace, i); }
    }
  }

  /** The segment loop: it ends at the first segment that cannot be mapped. What it mapped before
      that stays mapped. */
  method MapSegments(limits: Limits, image: BinaryImage, memory: AddressSpace, bias: U64, enforceWx: bool)
    returns (r: Status, mapped: nat, ghost trace: seq<RegionMap>)
    requires memory.Valid() && image.fileData.Some? && Backed(image.segments, image.fileData.value)
    modifies memory
    ensures memory.Valid() && memory.limits == old(memory.limits)
    ensures LoadRun(limits, memory.limits, image.segments, image.fileData.value, bias, enforceWx, old(memory.regions),
                    trace)
    ensures memory.regions == trace[|trace| - 1]
    ensures r.Done? ==> |trace| == |image.segments| + 1 && memory.mappedBytes == old(memory.mappedBytes) + mapped
    ensures r.Failed? ==> |trace| <= |image.segments|
                          && r == SegmentVerdict(limits, memory.limits, memory.regions, memory.mappedBytes,
                                                 image.segments[|trace| - 1], bias)
  {
    ghost var start, file := memory.regions, image.fileData.value;
    mapped, trace := 0, [start];
    for i := 0 to |image.segments|
      invariant memory.Valid() && memory.limits == old(memory.limits)
      invariant |trace| == i + 1 && memory.regions == trace[i]
      invariant LoadRun(limits, memory.limits, image.segments, file, bias, enforceWx, start, trace)
      invariant memory.mappedBytes == old(memory.mappedBytes) + mapped
    {
      var s := image.segments[i];
      var size;
      r, size := MapSegment(limits, memory, s, bias, enforceWx, Content(s, image.fileData.value));
      if r.Failed? { return r, mapped, trace; }
      LoadGoesOn(limits, memory.limits, image.segments, file, bias, enforceWx, start, trace, memory.regions);
      trace := trace + [memory.regions];
      mapped := mapped + size;
    }
    r := Done;
  }

  // ----- imports -----

  /** What one import comes to: weak imports that cannot be resolved are skipped. */
  function ImportOutcome(x: Import, image: BinaryImage, bias: U64, resolver: Option<Resolver>): Outcome
  {
    var target := if resolver.None? then None else resolver.value(x.library, x.name, x.ordinal);
    match target
    case None => if x.weak then Ok(None) else Err(UnresolvedImport)
    case Some(v) =>
      match CheckedAdd(x.slotAddress, bias)
      case None => Err(Unspecified)
      case Some(slot) => Ok(Some(Patch(slot, image.wordSize, v)))
  }

  ghost predicate ImportIs(outcomes: seq<Outcome>, image: BinaryImage, bias: U64, resolver: Option<Resolver>, i: nat)
    requires i < |outcomes| == |image.imports|
  {
    outcomes[i] == ImportOutcome(image.imports[i], image, bias, resolver)
  }

  ghost predicate ImportsOf(outcomes: seq<Outcome>, image: BinaryImage, bias: U64, resolver: Option<Resolver>)
  {
    |outcomes| == |image.imports|
    && forall i {:trigger ImportIs(outcomes, image, bias, resolver, i)} :: 0 <= i < |outcomes| ==>
         ImportIs(outcomes, image, bias, resolver, i)
  }

  ghost function ImportsFor(image: BinaryImage, bias: U64, resolver: Option<Resolver>): (r: seq<Outcome>)
    ensures ImportsOf(r, image, bias, resolver)
  {
    seq(|image.imports|, i requires 0 <= i < |image.imports| => ImportOutcome(image.imports[i], image, bias, resolver))
  }

  method FillSlot(image: BinaryImage, memory: AddressSpace, bias: U64, resolver: Option<Resolver>,
                  ghost outcomes: seq<Outcome>, i: nat)
    returns (s: Status, filled: nat)
    requires memory.Valid() && ImportsOf(outcomes, image, bias, resolver) && i < |image.imports|
    modifies memory`regions
    ensures memory.Valid()
    ensures s == OutcomeVerdict(old(memory.regions), outcomes[i])
    ensures s.Done? ==> filled == if outcomes[i].value.Some? then 1 else 0
    ensures memory.regions == if s.Done? then Patched(old(memory.regions), outcomes[i].value, image.byteOrder)
                              else old(memory.regions)
  {
    assert ImportIs(outcomes, image, bias, resolver, i);
    var outcome := ImportOutcome(image.imports[i], image, bias, resolver);
    if outcome.Err? { return Failed(outcome.code), 0; }
    if outcome.value.None? { return Done, 0; }
    var p := outcome.value.value;
    s := memory.WriteInteger(p.target, p.width, image.byteOrder, p.value, true);
    filled := 1;
  }

  /** The imports whose slots the first n outcomes fill. */
  ghost function Resolved(outcomes: seq<Outcome>, n: nat): nat
    requires n <= |outcomes|
  {
    if n == 0 then 0
    else Resolved(outcomes, n - 1) + if outcomes[n - 1].Ok? && outcomes[n - 1].value.Some? then 1 else 0
  }

  /** One turn of the import loop. */
  method FillTurn(image: BinaryImage, memory: AddressSpace, bias: U64, resolver: Option<Resolver>,
                  ghost outcomes: seq<Outcome>, i: nat, ghost start: RegionMap, ghost trace: seq<RegionMap>)
    returns (s: Status, filled: nat)
    requires memory.Valid() && ImportsOf(outcomes, image, bias, resolver) && i < |image.imports|
    requires Written(start, outcomes, image.byteOrder, trace) && |trace| == i + 1 && memory.regions == trace[i]
    modifies memory`regions
    ensures memory.Valid()
    ensures s.Done? ==>
              && Written(start, outcomes, image.byteOrder, trace + [memory.regions])
              && outcomes[i].Ok? && filled == if outcomes[i].value.Some? then 1 else 0
    ensures s.Failed? ==>
              && memory.regions == trace[i] && RunsThrough(start, outcomes, image.byteOrder, trace)
              && s == VerdictFrom(start, outcomes, 0)
  {
    s, filled := FillSlot(image, memory, bias, resolver, outcomes, i);
    TurnTaken(start, outcomes, image.byteOrder, trace, s, memory.regions);
  }

  /** The import loop: the slots are filled in order, up to the first import that fails. */
  method FillSlots(image: BinaryImage, memory: AddressSpace, bias: U64, resolver: Option<Resolver>)
    returns (s: Status, resolved: nat, ghost outcomes: seq<Outcome>, ghost trace: seq<RegionMap>)
    requires memory.Valid()
    modifies memory`regions
    ensures memory.Valid() && outcomes == ImportsFor(image, bias, resolver)
    ensures s == VerdictFrom(old(memory.regions), outcomes, 0)
    ensures RunsThrough(old(memory.regions), outcomes, image.byteOrder, trace)
    ensures memory.regions == trace[|trace| - 1]
    ensures s.Done? ==> resolved == Resolved(outcomes, |outcomes|)
  {
    outcomes := ImportsFor(image, bias, resolver);
    ghost var start := memory.regions;
    resolved, trace := 0, [start];
    RunStarts(start, outcomes, image.byteOrder);
    for i := 0 to |image.imports|
      invariant memory.Valid() && |trace| == i + 1 && memory.regions == trace[i]
      invariant Written(start, outcomes, image.byteOrder, trace)
      invariant resolved == Resolved(outcomes, i)
    {
      var filled;
      s, filled := FillTurn(image, memory, bias, resolver, outcomes, i, start, trace);
      if s.Failed? { return s, resolved, outcomes, trace; }
      trace := trace + [memory.regions];
      resolved := resolved + filled;
    }
    AllTaken(start, outcomes, image.byteOrder, trace);
    s := Done;
  }

  // ----- the whole load -----

  /** The image base, or the lowest segment address when the header gives none. */
  predicate IsOriginalBase(image: BinaryImage, base: U64)
  {
    if image.imageBase != 0 then base == image.imageBase
    else if image.segments == [] then base == 0
    else Layout.IsLowest(image.segments, base)
  }

  method OriginalBase(image: BinaryImage) returns (base: U64)
    ensures IsOriginalBase(image, base)
  {
    base := image.imageBase;
    if base == 0 && image.segments != [] { base := Layout.LowestAddress(image.segments); }
  }

  /** base - original_base in 64 bits. */
  function Bias(options: LoadOptions, originalBase: U64): U64
  {
    Wrapped(LoadBase(options.preferredBase, originalBase) - originalBase)
  }

  function EntryPoint(image: BinaryImage, originalBase: U64, bias: U64): Option<U64>
  {
    if image.entryPoint != 0 && originalBase != 0 && image.entryPoint >= originalBase
    then CheckedAdd(image.entryPoint, bias) else Some(image.entryPoint)
  }

  lemma ValidMeansBacked(limits: Limits, image: BinaryImage)
    requires FirstError(limits, image).None?
    ensures image.fileData.Some? && Backed(image.segments, image.fileData.value)
  {
    var size := |image.fileData.value|;
    SegmentsChecked(image.segments, size);
    forall i | 0 <= i < |image.segments|
      ensures image.segments[i].fileOffset + image.segments[i].fileSize <= size
              && image.segments[i].fileSize <= image.segments[i].memorySize
    {
      assert SegmentError(image.segments[i], size).None?;
    }
  }

  lemma KeptOn(a: RegionMap, b: RegionMap, c: RegionMap)
    requires Kept(a, b) && Kept(b, c)
    ensures Kept(a, c)
  {
    SameShapeTransitive(a, b, c);
  }

  /** What the steps behind the segment loop come to on memory m: the first relocation that does not
      apply decides, then the first import that does not. Whether an import applies does not depend
      on the relocations before it. */
  ghost function FinishVerdict(limits: Limits, image: BinaryImage, options: LoadOptions, bias: U64,
                               resolver: Option<Resolver>, m: RegionMap): Status
  {
    if options.applyRelocations && RelocationVerdict(limits, image, bias, resolver, m).Failed? then
      RelocationVerdict(limits, image, bias, resolver, m)
    else if options.resolveImports then VerdictFrom(m, ImportsFor(image, bias, resolver), 0)
    else Done
  }

  /** Memory n is m with the relocations and then the imports written in order, as far as the options
      ask for them and up to the first that does not apply. */
  ghost predicate FinishedBy(limits: Limits, image: BinaryImage, options: LoadOptions, bias: U64,
                             resolver: Option<Resolver>, m: RegionMap, n: RegionMap)
  {
    exists middle :: FinishedThrough(limits, image, options, bias, resolver, m, middle, n)
  }

  ghost predicate FinishedThrough(limits: Limits, image: BinaryImage, options: LoadOptions, bias: U64,
                                  resolver: Option<Resolver>, m: RegionMap, middle: RegionMap, n: RegionMap)
  {
    && SameShape(m, middle)
    && (if options.applyRelocations then RelocatedTo(limits, image, bias, resolver, m, middle) else middle == m)
    && (if options.resolveImports && RelocationsDone(limits, image, options, bias, resolver, m)
        then RunsTo(middle, ImportsFor(image, bias, resolver), image.byteOrder, n)
        else n == middle)
  }

  ghost predicate RelocationsDone(limits: Limits, image: BinaryImage, options: LoadOptions, bias: U64,
                                  resolver: Option<Resolver>, m: RegionMap)
  {
    options.applyRelocations ==> RelocationVerdict(limits, image, bias, resolver, m).Done?
  }

  /** More relocations than the limit allows are not begun with. */
  ghost predicate RelocatedTo(limits: Limits, image: BinaryImage, bias: U64, resolver: Option<Resolver>,
                              m: RegionMap, n: RegionMap)
  {
    if |image.relocations| > limits.maxRelocations then n == m
    else RunsTo(m, OutcomesFor(image, bias, resolver), image.byteOrder, n)
  }

  method Relocate(limits: Limits, image: BinaryImage, memory: AddressSpace, bias: U64, resolver: Option<Resolver>)
    returns (s: Status, applied: nat)
    requires memory.Valid()
    modifies memory`regions
    ensures memory.Valid() && Kept(old(memory.regions), memory.regions)
    ensures s == RelocationVerdict(limits, image, bias, resolver, old(memory.regions))
    ensures RelocatedTo(limits, image, bias, resolver, old(memory.regions), memory.regions)
    ensures s.Done? ==> applied == |image.relocations|
  {
    ghost var outcomes, trace;
    s, applied, outcomes, trace := Apply(limits, image, memory, bias, resolver);
    assert Kept(old(memory.regions), trace[applied]);
  }

  method Import(image: BinaryImage, memory: AddressSpace, bias: U64, resolver: Option<Resolver>)
    returns (s: Status, resolved: nat)
    requires memory.Valid()
    modifies memory`regions
    ensures memory.Valid() && Kept(old(memory.regions), memory.regions)
    ensures s == VerdictFrom(old(memory.regions), ImportsFor(image, bias, resolver), 0)
    ensures RunsTo(old(memory.regions), ImportsFor(image, bias, resolver), image.byteOrder, memory.regions)
    ensures s.Done? ==> resolved == Resolved(ImportsFor(image, bias, resolver), |image.imports|)
  {
    ghost var outcomes, trace;
    s, resolved, outcomes, trace := FillSlots(image, memory, bias, resolver);
    assert Kept(old(memory.regions), trace[|trace| - 1]);
  }

  /** The relocations and imports, as far as the options ask for them. */
  method Finish(limits: Limits, image: BinaryImage, memory: AddressSpace, options: LoadOptions, bias: U64,
                resolver: Option<Resolver>)
    returns (s: Status, applied: nat, resolved: nat)
    requires memory.Valid()
    modifies memory`regions
    ensures memory.Valid() && Kept(old(memory.regions), memory.regions)
    ensures s == FinishVerdict(limits, image, options, bias, resolver, old(memory.regions))
    ensures FinishedBy(limits, image, options, bias, resolver, old(memory.regions), memory.regions)
    ensures s.Done? ==>
              && applied == (if options.applyRelocations then |image.relocations| else 0)
              && resolved ==
                 (if options.resolveImports then Resolved(ImportsFor(image, bias, resolver), |image.imports|) else 0)
  {
    s, applied, resolved := Done, 0, 0;
    ghost var start := memory.regions;
    if options.applyRelocations {
      s, applied := Relocate(limits, image, memory, bias, resolver);
      if s.Failed? {
        assert FinishedThrough(limits, image, options, bias, resolver, start, memory.regions, memory.regions);
        return;
      }
    }
    ghost var middle := memory.regions;
    if options.resolveImports {
      VerdictsMeet(start, middle, ImportsFor(image, bias, resolver), 0);
      s, resolved := Import(image, memory, bias, resolver);
      KeptOn(start, middle, memory.regions);
    }
    assert FinishedThrough(limits, image, options, bias, resolver, start, middle, memory.regions);
  }

  // ----- what stands after the load -----

  /** Nothing behind relocation k touches its patch p: no later relocation and, if slots are
      filled, no import. */
  ghost predicate LeftAlone(image: BinaryImage, options: LoadOptions, bias: U64, resolver: Option<Resolver>,
                            p: Patch, k: nat)
    requires k < |image.relocations|
  {
    && Spared(p, OutcomesFor(image, bias, resolver), k + 1, |image.relocations|)
    && (options.resolveImports ==> Spared(p, ImportsFor(image, bias, resolver), 0, |image.imports|))
  }

  /** Success behind the segment loop means that everything asked for applied. */
  lemma FinishDone(limits: Limits, image: BinaryImage, options: LoadOptions, bias: U64, resolver: Option<Resolver>,
                   m: RegionMap)
    requires FinishVerdict(limits, image, options, bias, resolver, m).Done?
    ensures options.applyRelocations ==> |image.relocations| <= limits.maxRelocations
                                         && VerdictFrom(m, OutcomesFor(image, bias, resolver), 0).Done?
    ensures options.resolveImports ==> VerdictFrom(m, ImportsFor(image, bias, resolver), 0).Done?
  {
  }

  /** After a successful load, a relocation that nothing behind it touches reads back as its value. */
  lemma LoadedRelocationReadsBack(limits: Limits, image: BinaryImage, options: LoadOptions, bias: U64,
                                  resolver: Option<Resolver>, m: RegionMap, n: RegionMap, k: nat)
    requires FinishedBy(limits, image, options, bias, resolver, m, n) && options.applyRelocations
    requires FinishVerdict(limits, image, options, bias, resolver, m).Done? && k < |image.relocations|
    ensures var x := PatchOf(image.relocations[k], image, bias, resolver);
            && x.Ok?
            && (x.value.Some? && LeftAlone(image, options, bias, resolver, x.value.value, k) ==>
                  var p := x.value.value;
                  && Stands(n, p, image.byteOrder)
                  && Endian.Decode(ReadAt(n, p.target, p.width), image.byteOrder) == p.value)
  {
    FinishDone(limits, image, options, bias, resolver, m);
    var outcomes := OutcomesFor(image, bias, resolver);
    var middle :| FinishedThrough(limits, image, options, bias, resolver, m, middle, n);
    var x := PatchOf(image.relocations[k], image, bias, resolver);
    DoneMeansAll(m, outcomes, |outcomes|);
    assert OutcomeIs(outcomes, image, bias, resolver, k) && Applies(m, outcomes[k]);
    if x.value.Some? && LeftAlone(image, options, bias, resolver, x.value.value, k) {
      StandsAfter(m, outcomes, image.byteOrder, middle, k);
      if options.resolveImports {
        VerdictsMeet(m, middle, ImportsFor(image, bias, resolver), 0);
        StandsThrough(middle, ImportsFor(image, bias, resolver), image.byteOrder, n, x.value.value);
      }
      RelocationReadsBack(n, image.relocations[k], image, bias, resolver);
    }
  }

  /** And an import slot that no later import touches holds the resolved address, or the low part of
      it that the word size holds. */
  lemma FilledSlotReadsBack(limits: Limits, image: BinaryImage, options: LoadOptions, bias: U64,
                            resolver: Option<Resolver>, m: RegionMap, n: RegionMap, k: nat)
    requires FinishedBy(limits, image, options, bias, resolver, m, n) && options.resolveImports
    requires FinishVerdict(limits, image, options, bias, resolver, m).Done? && k < |image.imports|
    ensures var x := ImportOutcome(image.imports[k], image, bias, resolver);
            && x.Ok?
            && (x.value.Some? && Spared(x.value.value, ImportsFor(image, bias, resolver), k + 1, |image.imports|) ==>
                  Stands(n, x.value.value, image.byteOrder))
  {
    FinishDone(limits, image, options, bias, resolver, m);
    var outcomes := ImportsFor(image, bias, resolver);
    var middle :| FinishedThrough(limits, image, options, bias, resolver, m, middle, n);
    var x := ImportOutcome(image.imports[k], image, bias, resolver);
    VerdictsMeet(m, middle, outcomes, 0);
    DoneMeansAll(middle, outcomes, |outcomes|);
    assert ImportIs(outcomes, image, bias, resolver, k) && Applies(middle, outcomes[k]);
    if x.value.Some? && Spared(x.value.value, outcomes, k + 1, |image.imports|) {
      StandsAfter(middle, outcomes, image.byteOrder, n, k);
    }
  }

  // ----- load -----

  /** The segment loop of a load from start on went through the memories loaded. */
  ghost predicate SegmentsLoaded(limits: Limits, memoryLimits: Limits, image: BinaryImage, options: LoadOptions,
                                 originalBase: U64, start: RegionMap, loaded: seq<RegionMap>)
  {
    && IsOriginalBase(image, originalBase)
    && image.fileData.Some? && Backed(image.segments, image.fileData.value)
    && LoadRun(limits, memoryLimits, image.segments, image.fileData.value, Bias(options, originalBase),
               options.enforceWx, start, loaded)
    && WellFormed(loaded[|loaded| - 1])
  }

  /** What the load of a valid image ends with, given that segment loop: memory end and result r. It
      fails where the loop stopped early; else with the first relocation or import that does not
      apply; else if the entry point overflows; and otherwise it succeeds. */
  ghost predicate LoadEnds(limits: Limits, memoryLimits: Limits, image: BinaryImage, options: LoadOptions,
                           resolver: Option<Resolver>, originalBase: U64, start: RegionMap, loaded: seq<RegionMap>,
                           end: RegionMap, r: Result<LoadResult>)
    requires loaded != []
  {
    var bias, mapped := Bias(options, originalBase), loaded[|loaded| - 1];
    if |loaded| <= |image.segments| then
      && end == mapped && r.Err?
      && Failed(r.code) == SegmentVerdict(limits, memoryLimits, mapped, TotalSize(mapped),
                                          image.segments[|loaded| - 1], bias)
    else
      var verdict := FinishVerdict(limits, image, options, bias, resolver, mapped);
      var entry := EntryPoint(image, originalBase, bias);
      && Kept(mapped, end) && FinishedBy(limits, image, options, bias, resolver, mapped, end)
      && if verdict.Failed? then r == Err(verdict.code)
         else if entry.None? then r == Err(AddressOverflow)
         else
           && r.Ok? && r.value.loadBase == LoadBase(options.preferredBase, originalBase)
           && r.value.entryPoint == entry.value && r.value.mappedBytes == TotalSize(mapped) - TotalSize(start)
           && r.value.relocationsApplied == (if options.applyRelocations then |image.relocations| else 0)
           && r.value.importsResolved ==
                (if options.resolveImports then Resolved(ImportsFor(image, bias, resolver), |image.imports|) else 0)
  }

  /** The outcome of load, of a valid image or not. */
  ghost predicate LoadOutcome(limits: Limits, memoryLimits: Limits, image: BinaryImage, options: LoadOptions,
                              resolver: Option<Resolver>, originalBase: U64, start: RegionMap, loaded: seq<RegionMap>,
                              end: RegionMap, r: Result<LoadResult>)
  {
    match FirstError(limits, image)
    case Some(code) => r == Err(code) && end == start
    case None =>
      && SegmentsLoaded(limits, memoryLimits, image, options, originalBase, start, loaded)
      && LoadEnds(limits, memoryLimits, image, options, resolver, originalBase, start, loaded, end, r)
  }

  /** load. loaded are the memories of the segment loop. */
  method Load(limits: Limits, image: BinaryImage, memory: AddressSpace, options: LoadOptions,
              resolver: Option<Resolver>)
    returns (r: Result<LoadResult>, ghost originalBase: U64, ghost loaded: seq<RegionMap>)
    requires memory.Valid()
    modifies memory
    ensures memory.Valid() && memory.limits == old(memory.limits)
    ensures LoadOutcome(limits, memory.limits, image, options, resolver, originalBase, old(memory.regions), loaded,
                        memory.regions, r)
  {
    originalBase, loaded := 0, [];
    var error := FirstError(limits, image);
    if error.Some? { return Err(error.value), 0, []; }
    ValidMeansBacked(limits, image);
    var original := OriginalBase(image);
    var bias := Bias(options, original);
    originalBase := original;
    var status, mapped;
    status, mapped, loaded := MapSegments(limits, image, memory, bias, options.enforceWx);
    if status.Failed? { return Err(status.code), originalBase, loaded; }
    var applied, resolved;
    status, applied, resolved := Finish(limits, image, memory, options, bias, resolver);
    if status.Failed? { return Err(status.code), originalBase, loaded; }
    var entry := EntryPoint(image, original, bias);
    if entry.None? { return Err(AddressOverflow), originalBase, loaded; }
    r := Ok(LoadResult(LoadBase(options.preferredBase, original), entry.value, mapped, applied, resolved));
  }
}
