/** The whole of LayoutPlanner::plan in src/layout.cc. */
module LayoutPlans {
  import opened Base
  import opened Image
  import opened Layout
  import opened LayoutMerging
  import opened Sorting

  /** The plan made from sorted regions: merged into maximal runs if asked for, with the extent
      and the totals of all of them. */
  ghost predicate PlanOf(sorted: seq<LayoutRegion>, merge: bool, plan: LayoutPlan)
  {
    && Laid(sorted) && Laid(plan.regions)
    && (if merge then IsMerged(sorted, plan.regions) else plan.regions == sorted)
    && plan.mappedBytes == MappedBytes(sorted, |sorted|)
    && plan.fileBytes == FileBytes(sorted, |sorted|)
    && Encloses(plan.regions, plan.imageBegin, plan.imageEnd)
  }

  /** The tightest range around the regions; [0, 0) when there are none. */
  predicate Encloses(regions: seq<LayoutRegion>, begin: int, end: int)
  {
    if regions == [] then begin == 0 && end == 0
    else
      && begin == regions[0].targetAddress && end == regions[|regions| - 1].TargetEnd()
      && forall i {:trigger regions[i]} :: 0 <= i < |regions| ==>
           begin <= regions[i].targetAddress && regions[i].TargetEnd() <= end
  }

  /** Runs of at most one region change nothing. */
  lemma NothingToRun(s: seq<LayoutRegion>) returns (cuts: seq<nat>)
    requires Laid(s) && |s| <= 1
    ensures Runs(s, |s|, cuts, s)
  {
    if s == [] {
      cuts := [0];
    } else {
      cuts := [0, 1];
      assert Names(s, 0, 1) == [] + s[0].name == s[0].name;
      assert IsRun(s, 0, 1, s[0]);
    }
  }

  lemma {:induction false} TotalsFit(s: seq<LayoutRegion>, n: nat)
    requires Laid(s) && n <= |s|
    ensures FileBytes(s, n) <= MappedBytes(s, n)
    ensures n > 0 ==> MappedBytes(s, n) <= s[n - 1].TargetEnd() - s[0].targetAddress
    ensures MappedBytes(s, n) < TWO64
  {
    if n > 0 {
      assert Sound(s[n - 1]);
      TotalsFit(s, n - 1);
    }
  }

  /** The loop over the totals: no sum overflows. */
  method Totals(s: seq<LayoutRegion>) returns (mapped: U64, file: U64)
    requires Laid(s)
    ensures mapped == MappedBytes(s, |s|) && file == FileBytes(s, |s|)
  {
    mapped, file := 0, 0;
    for i := 0 to |s|
      invariant mapped == MappedBytes(s, i) && file == FileBytes(s, i)
    {
      TotalsFit(s, i + 1);
      var next := CheckedAdd(mapped, s[i].targetSize);
      mapped := next.value;
      next := CheckedAdd(file, s[i].sourceSize);
      file := next.value;
    }
  }

  lemma LaidEncloses(s: seq<LayoutRegion>)
    requires Laid(s) && s != []
    ensures Encloses(s, s[0].targetAddress, s[|s| - 1].TargetEnd()) && s[|s| - 1].TargetEnd() < TWO64
  {
    assert forall i :: 0 <= i < |s| ==> Sound(s[i]);
  }

  /** The merging step of plan, on regions that passed the overlap check. */
  method Combine(sorted: seq<LayoutRegion>, merge: bool) returns (regions: seq<LayoutRegion>)
    requires Laid(sorted)
    ensures Laid(regions)
    ensures if merge then IsMerged(sorted, regions) else regions == sorted
    ensures MappedBytes(regions, |regions|) == MappedBytes(sorted, |sorted|)
    ensures FileBytes(regions, |regions|) == FileBytes(sorted, |sorted|)
  {
    regions := sorted;
    if !merge { return; }
    ghost var cuts;
    if |sorted| > 1 {
      regions := MergeRegions(sorted);
      cuts :| Runs(sorted, |sorted|, cuts, regions);
      MergedLaid(sorted, cuts, regions);
      MergingKeepsTotals(sorted, |sorted|, cuts, regions, |regions|);
    } else {
      cuts := NothingToRun(sorted);
    }
  }

  /** The steps of plan behind the placement. */
  method Arrange(limits: Limits, placed: seq<LayoutRegion>, merge: bool) returns (r: Result<LayoutPlan>)
    requires AllSound(placed)
    ensures !PairwiseApart(placed) ==> r == Err(MappingOverlap)
    ensures PairwiseApart(placed) ==>
              var sorted := SortRegions(placed);
              if MappedBytes(sorted, |sorted|) > limits.maxMappedBytes then r == Err(ResourceLimit)
              else r.Ok? && PlanOf(sorted, merge, r.value)
  {
    var sorted := SortRegions(placed);
    SortingFindsOverlaps(placed);
    var overlap := AdjacentOverlap(sorted);
    if overlap { return Err(MappingOverlap); }
    var regions := Combine(sorted, merge);
    var begin: U64, end: U64 := 0, 0;
    if regions != [] {
      LaidEncloses(regions);
      begin := regions[0].targetAddress;
      end := regions[|regions| - 1].TargetEnd();
    }
    var mapped, file := Totals(regions);
    if mapped > limits.maxMappedBytes { return Err(ResourceLimit); }
    return Ok(LayoutPlan(begin, end, mapped, file, regions));
  }

  lemma ValidMeansSound(limits: Limits, image: BinaryImage)
    requires FirstError(limits, image).None?
    ensures SegmentsSound(image.segments)
  {
    var size := |image.fileData.value|;
    SegmentsChecked(image.segments, size);
    forall i | 0 <= i < |image.segments|
      ensures image.segments[i].fileSize <= image.segments[i].memorySize
              && image.segments[i].fileOffset + image.segments[i].fileSize < TWO64
    {
      assert SegmentError(image.segments[i], size).None?;
    }
  }

  /** plan. */
  method Plan(limits: Limits, image: BinaryImage, requestedBase: U64, mergeAdjacent: bool)
    returns (r: Result<LayoutPlan>, ghost originalBase: U64)
    ensures FirstError(limits, image).Some? ==> r == Err(FirstError(limits, image).value)
    ensures FirstError(limits, image).None? && image.segments == [] ==>
              r == Ok(LayoutPlan(requestedBase, requestedBase, 0, 0, []))
    ensures FirstError(limits, image).None? && image.segments != [] ==>
              && IsLowest(image.segments, originalBase)
              && var placed := Placed(limits, image.segments, originalBase, LoadBase(requestedBase, originalBase),
                                      |image.segments|);
                 if placed.Err? then r == Err(placed.code)
                 else if !PairwiseApart(placed.value) then r == Err(MappingOverlap)
                 else
                   var sorted := SortRegions(placed.value);
                   if MappedBytes(sorted, |sorted|) > limits.maxMappedBytes then r == Err(ResourceLimit)
                   else r.Ok? && PlanOf(sorted, mergeAdjacent, r.value)
  {
    originalBase := 0;
    var error := FirstError(limits, image);
    if error.Some? { return Err(error.value), 0; }
    if image.segments == [] { return Ok(LayoutPlan(requestedBase, requestedBase, 0, 0, [])), 0; }
    var lowest := LowestAddress(image.segments);
    originalBase := lowest;
    var loadBase := LoadBase(requestedBase, lowest);
    ValidMeansSound(limits, image);
    PlacedSound(limits, image.segments, lowest, loadBase, |image.segments|);
    var placed := PlaceSegments(limits, image.segments, lowest, loadBase);
    if placed.Err? { return Err(placed.code), lowest; }
    r := Arrange(limits, placed.value, mergeAdjacent);
  }

  // ----- the plan maps exactly the segments -----

  /** Segment s, moved along with the lowest segment, occupies address with these permissions. */
  predicate Occupies(s: Segment, shift: int, address: int, permissions: Byte)
  {
    s.virtualAddress + shift <= address < s.virtualAddress + shift + s.memorySize && s.permissions == permissions
  }

  lemma OneMorePermission(s: seq<LayoutRegion>, r: LayoutRegion, address: int, permissions: Byte)
    ensures PermissionAt(s + [r], address, permissions) <==>
            PermissionAt(s, address, permissions) || Grants(r, address, permissions)
  {
    var t := s + [r];
    assert t[|s|] == r && forall i :: 0 <= i < |s| ==> t[i] == s[i];
  }

  lemma {:induction false} PlacedMeansOccupied(limits: Limits, segments: seq<Segment>, originalBase: U64, loadBase: U64,
                                               n: nat, address: int, permissions: Byte)
    requires n <= |segments| && AtOrAbove(segments, originalBase)
    requires Placed(limits, segments, originalBase, loadBase, n).Ok?
    ensures PermissionAt(Placed(limits, segments, originalBase, loadBase, n).value, address, permissions) <==>
            exists i :: 0 <= i < n && Occupies(segments[i], loadBase - originalBase, address, permissions)
  {
    if n > 0 {
      PlacedMeansOccupied(limits, segments, originalBase, loadBase, n - 1, address, permissions);
      var before := Placed(limits, segments, originalBase, loadBase, n - 1).value;
      var placed := Placed(limits, segments, originalBase, loadBase, n).value;
      if segments[n - 1].memorySize == 0 {
        assert placed == before && !Occupies(segments[n - 1], loadBase - originalBase, address, permissions);
      } else {
        var last := Rebase(limits, segments[n - 1], originalBase, loadBase).value;
        assert placed == before + [last];
        OneMorePermission(before, last, address, permissions);
        assert Grants(last, address, permissions) <==>
               Occupies(segments[n - 1], loadBase - originalBase, address, permissions);
      }
    }
  }

  lemma PermissionsInAnyOrder(s: seq<LayoutRegion>, t: seq<LayoutRegion>, address: int, permissions: Byte)
    requires multiset(s) == multiset(t) && PermissionAt(s, address, permissions)
    ensures PermissionAt(t, address, permissions)
  {
    PermutationMembers(s, t);
    var i :| 0 <= i < |s| && Grants(s[i], address, permissions);
    assert s[i] in t;
    var j :| 0 <= j < |t| && t[j] == s[i];
  }

  /** Merged or not, the plan maps an address with some permissions exactly when some segment,
      kept at its displacement from the lowest segment, occupies it with them. */
  lemma PlanMapsSegments(limits: Limits, segments: seq<Segment>, originalBase: U64, loadBase: U64, merge: bool,
                         plan: LayoutPlan, address: int, permissions: Byte)
    requires AtOrAbove(segments, originalBase)
    requires Placed(limits, segments, originalBase, loadBase, |segments|).Ok?
    requires PlanOf(SortRegions(Placed(limits, segments, originalBase, loadBase, |segments|).value), merge, plan)
    ensures PermissionAt(plan.regions, address, permissions) <==>
            exists i :: 0 <= i < |segments| && Occupies(segments[i], loadBase - originalBase, address, permissions)
  {
    var placed := Placed(limits, segments, originalBase, loadBase, |segments|).value;
    var sorted := SortRegions(placed);
    PlacedMeansOccupied(limits, segments, originalBase, loadBase, |segments|, address, permissions);
    SortedRegions(placed);
    if PermissionAt(placed, address, permissions) { PermissionsInAnyOrder(placed, sorted, address, permissions); }
    if PermissionAt(sorted, address, permissions) { PermissionsInAnyOrder(sorted, placed, address, permissions); }
    if merge {
      var cuts :| Runs(sorted, |sorted|, cuts, plan.regions);
      MergingKeepsPermissions(sorted, cuts, plan.regions, address, permissions);
    }
  }

  // ----- where the plan puts file bytes -----

  /** Segment s, moved along with the lowest segment, puts the file byte at offset at address. */
  predicate Supplies(s: Segment, shift: int, offset: int, address: int)
  {
    && s.memorySize > 0 && s.fileOffset <= offset < s.fileOffset + s.fileSize
    && address - offset == s.virtualAddress + shift - s.fileOffset
  }

  predicate Supplied(segments: seq<Segment>, shift: int, offset: int, address: int)
  {
    exists i {:trigger Supplies(segments[i], shift, offset, address)} ::
      0 <= i < |segments| && Supplies(segments[i], shift, offset, address)
  }

  /** Two nonempty segments that meet in memory and in the file, with equal permissions. */
  predicate Meet(left: Segment, right: Segment)
  {
    && left.memorySize > 0 && right.memorySize > 0
    && left.virtualAddress + left.memorySize == right.virtualAddress
    && left.fileOffset + left.fileSize == right.fileOffset
    && left.permissions == right.permissions
  }

  /** Of two segments that meet, the left one is full of file bytes or the right one has none. */
  predicate SegmentGapsLast(segments: seq<Segment>)
  {
    forall i, j {:trigger Meet(segments[i], segments[j])} ::
      0 <= i < |segments| && 0 <= j < |segments| && Meet(segments[i], segments[j]) ==>
        segments[i].fileSize == segments[i].memorySize || segments[j].fileSize == 0
  }

  /** The region of a segment. */
  predicate Mirrors(r: LayoutRegion, s: Segment, shift: int)
  {
    && s.memorySize > 0 && r.targetAddress == s.virtualAddress + shift && r.targetSize == s.memorySize
    && r.sourceOffset == s.fileOffset && r.sourceSize == s.fileSize && r.permissions == s.permissions
  }

  predicate HasRegion(regions: seq<LayoutRegion>, s: Segment, shift: int)
  {
    exists i {:trigger Mirrors(regions[i], s, shift)} :: 0 <= i < |regions| && Mirrors(regions[i], s, shift)
  }

  predicate HasSegment(segments: seq<Segment>, r: LayoutRegion, shift: int)
  {
    exists i {:trigger Mirrors(r, segments[i], shift)} :: 0 <= i < |segments| && Mirrors(r, segments[i], shift)
  }

  /** The regions are those of the nonempty segments. */
  ghost predicate Mirrored(regions: seq<LayoutRegion>, segments: seq<Segment>, shift: int)
  {
    && (forall i {:trigger HasRegion(regions, segments[i], shift)} ::
          0 <= i < |segments| && segments[i].memorySize > 0 ==> HasRegion(regions, segments[i], shift))
    && (forall i {:trigger HasSegment(segments, regions[i], shift)} ::
          0 <= i < |regions| ==> HasSegment(segments, regions[i], shift))
  }

  lemma {:induction false} SegmentBehind(limits: Limits, segments: seq<Segment>, originalBase: U64, loadBase: U64,
                                         n: nat, j: nat)
    requires n <= |segments| && AtOrAbove(segments, originalBase)
    requires Placed(limits, segments, originalBase, loadBase, n).Ok?
    requires j < |Placed(limits, segments, originalBase, loadBase, n).value|
    ensures HasSegment(segments, Placed(limits, segments, originalBase, loadBase, n).value[j], loadBase - originalBase)
  {
    if n > 0 {
      var before := Placed(limits, segments, originalBase, loadBase, n - 1).value;
      if j < |before| {
        SegmentBehind(limits, segments, originalBase, loadBase, n - 1, j);
      } else {
        assert Mirrors(Placed(limits, segments, originalBase, loadBase, n).value[j], segments[n - 1],
                       loadBase - originalBase);
      }
    }
  }

  lemma RegionOfSegment(limits: Limits, segments: seq<Segment>, originalBase: U64, loadBase: U64, i: nat)
    requires i < |segments| && AtOrAbove(segments, originalBase) && segments[i].memorySize > 0
    requires Placed(limits, segments, originalBase, loadBase, |segments|).Ok?
    ensures HasRegion(Placed(limits, segments, originalBase, loadBase, |segments|).value, segments[i],
                      loadBase - originalBase)
  {
    DisplacementKept(limits, segments, originalBase, loadBase, |segments|, i);
    var placed := Placed(limits, segments, originalBase, loadBase, |segments|).value;
    var j :| 0 <= j < |placed| && var r := placed[j];
             && r.targetAddress - loadBase == segments[i].virtualAddress - originalBase
             && r.targetSize == segments[i].memorySize && r.permissions == segments[i].permissions
             && r.sourceOffset == segments[i].fileOffset && r.sourceSize == segments[i].fileSize;
    assert Mirrors(placed[j], segments[i], loadBase - originalBase);
  }

  lemma HasRegionInAnyOrder(a: seq<LayoutRegion>, b: seq<LayoutRegion>, s: Segment, shift: int)
    requires multiset(a) == multiset(b) && HasRegion(a, s, shift)
    ensures HasRegion(b, s, shift)
  {
    PermutationMembers(a, b);
    var i :| 0 <= i < |a| && Mirrors(a[i], s, shift);
    assert a[i] in b;
    var j :| 0 <= j < |b| && b[j] == a[i];
    assert Mirrors(b[j], s, shift);
  }

  lemma SortedMirrored(limits: Limits, segments: seq<Segment>, originalBase: U64, loadBase: U64)
    requires AtOrAbove(segments, originalBase)
    requires Placed(limits, segments, originalBase, loadBase, |segments|).Ok?
    ensures Mirrored(SortRegions(Placed(limits, segments, originalBase, loadBase, |segments|).value), segments,
                     loadBase - originalBase)
  {
    var placed := Placed(limits, segments, originalBase, loadBase, |segments|).value;
    var sorted, shift := SortRegions(placed), loadBase - originalBase;
    SortedRegions(placed);
    PermutationMembers(placed, sorted);
    forall i | 0 <= i < |segments| && segments[i].memorySize > 0 ensures HasRegion(sorted, segments[i], shift) {
      RegionOfSegment(limits, segments, originalBase, loadBase, i);
      HasRegionInAnyOrder(placed, sorted, segments[i], shift);
    }
    forall i | 0 <= i < |sorted| ensures HasSegment(segments, sorted[i], shift) {
      assert sorted[i] in placed;
      var j :| 0 <= j < |placed| && placed[j] == sorted[i];
      SegmentBehind(limits, segments, originalBase, loadBase, |segments|, j);
    }
  }

  lemma BytesMirrored(regions: seq<LayoutRegion>, segments: seq<Segment>, shift: int, offset: int, address: int)
    requires Mirrored(regions, segments, shift)
    ensures FileByteAt(regions, offset, address) <==> Supplied(segments, shift, offset, address)
  {
    if FileByteAt(regions, offset, address) {
      var i :| 0 <= i < |regions| && Carries(regions[i], offset, address);
      assert HasSegment(segments, regions[i], shift);
      var u :| 0 <= u < |segments| && Mirrors(regions[i], segments[u], shift);
      assert Supplies(segments[u], shift, offset, address);
    }
    if Supplied(segments, shift, offset, address) {
      var u :| 0 <= u < |segments| && Supplies(segments[u], shift, offset, address);
      assert HasRegion(regions, segments[u], shift);
      var i :| 0 <= i < |regions| && Mirrors(regions[i], segments[u], shift);
      assert Carries(regions[i], offset, address);
    }
  }

  /** Regions that meet are neighbours once they are sorted. */
  lemma MeetingAreNeighbours(s: seq<LayoutRegion>, i: nat, j: nat)
    requires Laid(s) && i < |s| && j < |s| && Mergeable(s[i], s[j])
    ensures j == i + 1
  {
    assert Sound(s[i]) && Sound(s[j]);
    assert i + 1 < |s| ==> Sound(s[i + 1]);
  }

  lemma RegionGap(sorted: seq<LayoutRegion>, segments: seq<Segment>, shift: int, i: nat)
    requires Mirrored(sorted, segments, shift) && SegmentGapsLast(segments)
    requires i < |sorted| - 1 && MergeableAt(sorted, i)
    ensures Full(sorted[i]) || sorted[i + 1].sourceSize == 0
  {
    assert HasSegment(segments, sorted[i], shift) && HasSegment(segments, sorted[i + 1], shift);
    var u :| 0 <= u < |segments| && Mirrors(sorted[i], segments[u], shift);
    var v :| 0 <= v < |segments| && Mirrors(sorted[i + 1], segments[v], shift);
    assert Meet(segments[u], segments[v]);
  }

  lemma SegmentGap(sorted: seq<LayoutRegion>, segments: seq<Segment>, shift: int, u: nat, v: nat)
    requires Laid(sorted) && Mirrored(sorted, segments, shift) && GapsLast(sorted)
    requires u < |segments| && v < |segments| && Meet(segments[u], segments[v])
    ensures segments[u].fileSize == segments[u].memorySize || segments[v].fileSize == 0
  {
    assert HasRegion(sorted, segments[u], shift) && HasRegion(sorted, segments[v], shift);
    var i :| 0 <= i < |sorted| && Mirrors(sorted[i], segments[u], shift);
    var j :| 0 <= j < |sorted| && Mirrors(sorted[j], segments[v], shift);
    MeetingAreNeighbours(sorted, i, j);
    assert MergeableAt(sorted, i);
  }

  lemma GapsMirrored(sorted: seq<LayoutRegion>, segments: seq<Segment>, shift: int)
    requires Laid(sorted) && Mirrored(sorted, segments, shift)
    ensures GapsLast(sorted) <==> SegmentGapsLast(segments)
  {
    if SegmentGapsLast(segments) {
      forall i | 0 <= i < |sorted| - 1 && MergeableAt(sorted, i)
        ensures Full(sorted[i]) || sorted[i + 1].sourceSize == 0
      {
        RegionGap(sorted, segments, shift, i);
      }
    }
    if GapsLast(sorted) {
      forall u, v | 0 <= u < |segments| && 0 <= v < |segments| && Meet(segments[u], segments[v])
        ensures segments[u].fileSize == segments[u].memorySize || segments[v].fileSize == 0
      {
        SegmentGap(sorted, segments, shift, u, v);
      }
    }
  }

  /** The regions put every file byte where the segments, moved by shift, put it. */
  ghost predicate KeepsFile(regions: seq<LayoutRegion>, segments: seq<Segment>, shift: int)
  {
    forall offset: int, address: int {:trigger FileByteAt(regions, offset, address)} ::
      FileByteAt(regions, offset, address) <==> Supplied(segments, shift, offset, address)
  }

  lemma MirroredKeepsFile(regions: seq<LayoutRegion>, segments: seq<Segment>, shift: int)
    requires Mirrored(regions, segments, shift)
    ensures KeepsFile(regions, segments, shift)
  {
    forall offset: int, address: int
      ensures FileByteAt(regions, offset, address) <==> Supplied(segments, shift, offset, address)
    {
      BytesMirrored(regions, segments, shift, offset, address);
    }
  }

  lemma KeepsFileThrough(sorted: seq<LayoutRegion>, regions: seq<LayoutRegion>, segments: seq<Segment>, shift: int)
    requires KeepsFile(sorted, segments, shift)
    ensures KeepsFile(regions, segments, shift) <==> SameFileBytes(sorted, regions)
  {
    if KeepsFile(regions, segments, shift) {
      forall offset: int, address: int
        ensures FileByteAt(regions, offset, address) <==> FileByteAt(sorted, offset, address)
      {
      }
    }
  }

  /** A plan puts every file byte where its segment, at its displacement from the lowest one, puts it:
      always when nothing is merged, and when regions are merged exactly if gaps come last. */
  lemma PlanKeepsFileIff(limits: Limits, segments: seq<Segment>, originalBase: U64, loadBase: U64, merge: bool,
                         plan: LayoutPlan)
    requires AtOrAbove(segments, originalBase)
    requires Placed(limits, segments, originalBase, loadBase, |segments|).Ok?
    requires PlanOf(SortRegions(Placed(limits, segments, originalBase, loadBase, |segments|).value), merge, plan)
    ensures !merge || SegmentGapsLast(segments) <==> KeepsFile(plan.regions, segments, loadBase - originalBase)
  {
    var sorted := SortRegions(Placed(limits, segments, originalBase, loadBase, |segments|).value);
    var shift := loadBase - originalBase;
    SortedMirrored(limits, segments, originalBase, loadBase);
    MirroredKeepsFile(sorted, segments, shift);
    if merge {
      var cuts :| Runs(sorted, |sorted|, cuts, plan.regions);
      GapsMirrored(sorted, segments, shift);
      MergingKeepsFileIff(sorted, cuts, plan.regions);
      KeepsFileThrough(sorted, plan.regions, segments, shift);
    }
  }

  // ----- a plan that moves a file byte -----

  /** Two whole pages with equal permissions, one file byte in each; the bytes are neighbours in the file. */
  const TWO_PAGES: seq<Segment> :=
    [Segment(0, 0, 1, 4096, 4096, 4096, 1, []), Segment(1, 1, 1, 8192, 4096, 4096, 1, [])]

  /** An image of these two segments, valid under all limits that admit its size. */
  const TWO_PAGE_IMAGE := BinaryImage(0, 0, 8, Little, [], TWO_PAGES, [], [], [], Some([1, 2]))

  lemma TwoPagesValid(limits: Limits)
    requires limits.maxFileSize >= 2 && limits.maxSegments >= 2
    ensures FirstError(limits, TWO_PAGE_IMAGE).None? && IsLowest(TWO_PAGES, 4096)
  {
    SegmentsChecked(TWO_PAGES, 2);
    assert TWO_PAGES[0].virtualAddress == 4096;
  }

  lemma PageAlignmentGood()
    ensures !BadAlignment(4096)
  {
    assert Pow2(12) == 4096;
    AlignmentGuard(4096);
  }

  const FIRST_PAGE := LayoutRegion(0, 1, 4096, 4096, 4096, 1, [0])
  const SECOND_PAGE := LayoutRegion(1, 1, 8192, 4096, 4096, 1, [1])

  lemma TwoPagesPlaced(limits: Limits)
    requires limits.pageSize == 4096 && AtOrAbove(TWO_PAGES, 4096)
    ensures Placed(limits, TWO_PAGES, 4096, 4096, 2) == Ok([FIRST_PAGE, SECOND_PAGE])
  {
    PageAlignmentGood();
    assert Rebase(limits, TWO_PAGES[0], 4096, 4096) == Ok(FIRST_PAGE);
    assert Rebase(limits, TWO_PAGES[1], 4096, 4096) == Ok(SECOND_PAGE);
    OneMorePlaced(limits, TWO_PAGES, 4096, 4096, 0, [], FIRST_PAGE);
    assert [] + [FIRST_PAGE] == [FIRST_PAGE];
    OneMorePlaced(limits, TWO_PAGES, 4096, 4096, 1, [FIRST_PAGE], SECOND_PAGE);
    assert [FIRST_PAGE] + [SECOND_PAGE] == [FIRST_PAGE, SECOND_PAGE];
  }

  lemma OneMorePlaced(limits: Limits, segments: seq<Segment>, originalBase: U64, loadBase: U64, n: nat,
                      before: seq<LayoutRegion>, r: LayoutRegion)
    requires n < |segments| && AtOrAbove(segments, originalBase) && segments[n].memorySize > 0
    requires Placed(limits, segments, originalBase, loadBase, n) == Ok(before)
    requires Rebase(limits, segments[n], originalBase, loadBase) == Ok(r)
    ensures Placed(limits, segments, originalBase, loadBase, n + 1) == Ok(before + [r])
  {
  }

  lemma TwoPagesSorted()
    ensures SortRegions([FIRST_PAGE, SECOND_PAGE]) == [FIRST_PAGE, SECOND_PAGE]
  {
    var s := [FIRST_PAGE, SECOND_PAGE];
    SortedRegions(s);
    var t := SortRegions(s);
    PermutationMembers(s, t);
    assert t[0] in s && t[1] in s;
    assert s[0] in t && s[1] in t;
  }

  /** Placed with pages of 4096 bytes, the guard lets them merge although the first page is not full
      of file bytes: the byte planned for the beginning of the second page moves into the first. */
  lemma GuardAllowsGap(limits: Limits, plan: LayoutPlan) returns (lower: int)
    requires limits.pageSize == 4096
    requires PlanOf([FIRST_PAGE, SECOND_PAGE], true, plan)
    ensures Placed(limits, TWO_PAGES, 4096, 4096, 2).Ok?
    ensures SortRegions(Placed(limits, TWO_PAGES, 4096, 4096, 2).value) == [FIRST_PAGE, SECOND_PAGE]
    ensures Supplied(TWO_PAGES, 0, 1, 8192) && !FileByteAt(plan.regions, 1, 8192)
    ensures lower < 8192 && FileByteAt(plan.regions, 1, lower)
  {
    TwoPagesPlaced(limits);
    TwoPagesSorted();
    assert Supplies(TWO_PAGES[1], 0, 1, 8192);
    var cuts :| Runs([FIRST_PAGE, SECOND_PAGE], 2, cuts, plan.regions);
    assert MergeableAt([FIRST_PAGE, SECOND_PAGE], 0);
    lower := GapMisplaces([FIRST_PAGE, SECOND_PAGE], cuts, plan.regions, 0);
  }
}
