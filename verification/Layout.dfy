/** LayoutPlanner::plan of src/layout.cc. */
module Layout {
  import opened Base
  import opened Image
  import opened Sorting

  /** The name "segment.1+segment.2" is kept as the list of segment indices it is made from. */
  datatype LayoutRegion = LayoutRegion(
    sourceOffset: U64, sourceSize: U64, targetAddress: U64, targetSize: U64, alignment: U64,
    permissions: Byte, name: seq<U32>)
  {
    function TargetEnd(): nat { targetAddress + targetSize }
    function SourceEnd(): nat { sourceOffset + sourceSize }
  }

  datatype LayoutPlan = LayoutPlan(
    imageBegin: U64, imageEnd: U64, mappedBytes: U64, fileBytes: U64, regions: seq<LayoutRegion>)

  // ----- placing the segments -----

  function PlannedAlignment(limits: Limits, s: Segment): U64
  {
    Max(limits.pageSize, if s.alignment == 0 then 1 else s.alignment)
  }

  /** Where a segment goes when the lowest one goes to loadBase. */
  function Rebase(limits: Limits, s: Segment, originalBase: U64, loadBase: U64): Result<LayoutRegion>
    requires originalBase <= s.virtualAddress
  {
    var address := loadBase + (s.virtualAddress - originalBase);
    if address >= TWO64 then Err(AddressOverflow)
    else if BadAlignment(PlannedAlignment(limits, s)) then Err(InvalidAlignment)
    else if address + s.memorySize >= TWO64 then Err(AddressOverflow)
    else Ok(LayoutRegion(s.fileOffset, s.fileSize, address, s.memorySize, PlannedAlignment(limits, s),
                         s.permissions, [s.index]))
  }

  predicate AtOrAbove(segments: seq<Segment>, originalBase: U64)
  {
    forall i {:trigger segments[i]} :: 0 <= i < |segments| ==> originalBase <= segments[i].virtualAddress
  }

  /** The regions of the nonempty ones among the first n segments, or the first error. */
  function Placed(limits: Limits, segments: seq<Segment>, originalBase: U64, loadBase: U64, n: nat)
    : Result<seq<LayoutRegion>>
    requires n <= |segments| && AtOrAbove(segments, originalBase)
  {
    if n == 0 then Ok([])
    else
      var before := Placed(limits, segments, originalBase, loadBase, n - 1);
      var s := segments[n - 1];
      if before.Err? || s.memorySize == 0 then before
      else
        var region := Rebase(limits, s, originalBase, loadBase);
        if region.Err? then Err(region.code) else Ok(before.value + [region.value])
  }

  predicate IsLowest(segments: seq<Segment>, base: U64)
  {
    && AtOrAbove(segments, base)
    && exists i {:trigger segments[i]} :: 0 <= i < |segments| && segments[i].virtualAddress == base
  }

  /** The loop over min(original_base, segment.virtual_address). */
  method LowestAddress(segments: seq<Segment>) returns (base: U64)
    requires segments != []
    ensures IsLowest(segments, base)
  {
    base := 0xFFFF_FFFF_FFFF_FFFF;
    for i := 0 to |segments|
      invariant AtOrAbove(segments[..i], base)
      invariant i == 0 ==> base == 0xFFFF_FFFF_FFFF_FFFF
      invariant i > 0 ==> exists j :: 0 <= j < i && segments[j].virtualAddress == base
    {
      assert segments[..i + 1][i] == segments[i];
      if segments[i].virtualAddress < base { base := segments[i].virtualAddress; }
      assert forall j :: 0 <= j < i ==> segments[..i + 1][j] == segments[..i][j];
      if base == segments[i].virtualAddress { assert segments[i].virtualAddress == base; }
    }
    assert segments[..|segments|] == segments;
  }

  lemma {:induction false} FirstErrorStays(limits: Limits, segments: seq<Segment>, originalBase: U64, loadBase: U64,
                                           m: nat, n: nat)
    requires m <= n <= |segments| && AtOrAbove(segments, originalBase)
    requires Placed(limits, segments, originalBase, loadBase, m).Err?
    ensures Placed(limits, segments, originalBase, loadBase, n) == Placed(limits, segments, originalBase, loadBase, m)
  {
    if m < n { FirstErrorStays(limits, segments, originalBase, loadBase, m, n - 1); }
  }

  /** The loop that rebases the segments. */
  method PlaceSegments(limits: Limits, segments: seq<Segment>, originalBase: U64, loadBase: U64)
    returns (r: Result<seq<LayoutRegion>>)
    requires AtOrAbove(segments, originalBase)
    ensures r == Placed(limits, segments, originalBase, loadBase, |segments|)
  {
    var regions: seq<LayoutRegion> := [];
    for i := 0 to |segments|
      invariant Placed(limits, segments, originalBase, loadBase, i) == Ok(regions)
    {
      var s := segments[i];
      if s.memorySize != 0 {
        var region := Rebase(limits, s, originalBase, loadBase);
        if region.Err? {
          FirstErrorStays(limits, segments, originalBase, loadBase, i + 1, |segments|);
          return Err(region.code);
        }
        regions := regions + [region.value];
      }
    }
    return Ok(regions);
  }

  /** What every placed region satisfies. */
  predicate Sound(r: LayoutRegion)
  {
    0 < r.targetSize && r.sourceSize <= r.targetSize && r.TargetEnd() < TWO64 && r.SourceEnd() < TWO64
  }

  predicate AllSound(s: seq<LayoutRegion>)
  {
    forall i {:trigger s[i]} :: 0 <= i < |s| ==> Sound(s[i])
  }

  predicate SegmentsSound(segments: seq<Segment>)
  {
    forall i {:trigger segments[i]} :: 0 <= i < |segments| ==>
      segments[i].fileSize <= segments[i].memorySize && segments[i].fileOffset + segments[i].fileSize < TWO64
  }

  lemma {:induction false} PlacedSound(limits: Limits, segments: seq<Segment>, originalBase: U64, loadBase: U64, n: nat)
    requires n <= |segments| && AtOrAbove(segments, originalBase) && SegmentsSound(segments)
    ensures var p := Placed(limits, segments, originalBase, loadBase, n); p.Ok? ==> AllSound(p.value)
  {
    if n > 0 { PlacedSound(limits, segments, originalBase, loadBase, n - 1); }
  }

  /** Every nonempty segment has a region, at its displacement from the lowest segment. */
  lemma {:induction false} DisplacementKept(limits: Limits, segments: seq<Segment>, originalBase: U64, loadBase: U64,
                                            n: nat, i: nat)
    requires i < n <= |segments| && AtOrAbove(segments, originalBase)
    requires Placed(limits, segments, originalBase, loadBase, n).Ok? && segments[i].memorySize > 0
    ensures exists j :: 0 <= j < |Placed(limits, segments, originalBase, loadBase, n).value|
              && var r := Placed(limits, segments, originalBase, loadBase, n).value[j];
                 && r.targetAddress - loadBase == segments[i].virtualAddress - originalBase
                 && r.targetSize == segments[i].memorySize && r.permissions == segments[i].permissions
                 && r.sourceOffset == segments[i].fileOffset && r.sourceSize == segments[i].fileSize
  {
    var placed := Placed(limits, segments, originalBase, loadBase, n).value;
    if i == n - 1 {
      assert placed[|placed| - 1] == Rebase(limits, segments[i], originalBase, loadBase).value;
    } else {
      DisplacementKept(limits, segments, originalBase, loadBase, n - 1, i);
      var before := Placed(limits, segments, originalBase, loadBase, n - 1).value;
      assert forall j :: 0 <= j < |before| ==> placed[j] == before[j];
    }
  }

  // ----- sorting and the overlap check -----

  predicate Precedes(left: LayoutRegion, right: LayoutRegion)
  {
    if left.targetAddress != right.targetAddress then left.targetAddress < right.targetAddress
    else left.targetSize < right.targetSize
  }

  function SortRegions(s: seq<LayoutRegion>): seq<LayoutRegion>
  {
    Sort((a, b) => Precedes(a, b), s)
  }

  predicate Intersect(a: LayoutRegion, b: LayoutRegion)
  {
    a.targetAddress < b.TargetEnd() && b.targetAddress < a.TargetEnd()
  }

  /** No two regions share an address. */
  predicate PairwiseApart(s: seq<LayoutRegion>)
  {
    forall i, j {:trigger s[i], s[j]} :: 0 <= i < j < |s| ==> !Intersect(s[i], s[j])
  }

  /** Each region ends before all later ones begin. */
  predicate Spread(s: seq<LayoutRegion>)
  {
    forall i, j {:trigger s[i], s[j]} :: 0 <= i < j < |s| ==> s[i].TargetEnd() <= s[j].targetAddress
  }

  lemma SortedRegions(s: seq<LayoutRegion>)
    ensures var t := SortRegions(s);
            && multiset(t) == multiset(s) && |t| == |s|
            && forall i, j {:trigger t[i], t[j]} :: 0 <= i < j < |t| ==> t[i].targetAddress <= t[j].targetAddress
  {
    var less := (a: LayoutRegion, b: LayoutRegion) => Precedes(a, b);
    SortSorts(less, s);
    var t := SortRegions(s);
    forall i, j | 0 <= i < j < |t| ensures t[i].targetAddress <= t[j].targetAddress { assert !less(t[j], t[i]); }
  }

  lemma SpreadMeansApart(t: seq<LayoutRegion>)
    requires AllSound(t)
    requires forall i, j {:trigger t[i], t[j]} :: 0 <= i < j < |t| ==> t[i].targetAddress <= t[j].targetAddress
    ensures Spread(t) <==> PairwiseApart(t)
  {
  }

  lemma ApartMeansDistinct(s: seq<LayoutRegion>)
    requires AllSound(s) && PairwiseApart(s)
    ensures NoDuplicates(s)
  {
  }

  /** Being pairwise apart does not depend on the order. */
  lemma ApartInAnyOrder(s: seq<LayoutRegion>, t: seq<LayoutRegion>)
    requires AllSound(s) && PairwiseApart(s) && multiset(s) == multiset(t)
    ensures PairwiseApart(t)
  {
    ApartMeansDistinct(s);
    PermutationKeepsNoDuplicates(s, t);
    PermutationMembers(s, t);
    forall i, j | 0 <= i < j < |t| ensures !Intersect(t[i], t[j]) {
      assert t[i] in s && t[j] in s;
      var p :| 0 <= p < |s| && s[p] == t[i];
      var q :| 0 <= q < |s| && s[q] == t[j];
      assert p != q;
    }
  }

  lemma SoundInAnyOrder(s: seq<LayoutRegion>, t: seq<LayoutRegion>)
    requires AllSound(s) && multiset(s) == multiset(t)
    ensures AllSound(t)
  {
    PermutationMembers(s, t);
    forall i | 0 <= i < |t| ensures Sound(t[i]) { assert t[i] in s; }
  }

  /** After sorting, the regions are spread out iff no two of the placed regions intersect. */
  lemma SortingFindsOverlaps(s: seq<LayoutRegion>)
    requires AllSound(s)
    ensures AllSound(SortRegions(s)) && (Spread(SortRegions(s)) <==> PairwiseApart(s))
  {
    var t := SortRegions(s);
    SortedRegions(s);
    SoundInAnyOrder(s, t);
    SpreadMeansApart(t);
    if PairwiseApart(s) { ApartInAnyOrder(s, t); }
    if PairwiseApart(t) { ApartInAnyOrder(t, s); }
  }

  /** The loop that only compares each region with the one before it. */
  method AdjacentOverlap(s: seq<LayoutRegion>) returns (found: bool)
    requires AllSound(s)
    ensures found <==> !Spread(s)
  {
    var index := 1;
    while index < |s|
      invariant 1 <= index && (|s| > 0 ==> index <= |s| && Spread(s[..index]))
    {
      var previous, current := s[index - 1], s[index];
      if previous.TargetEnd() > current.targetAddress { return true; }
      forall i | 0 <= i < index ensures s[i].TargetEnd() <= current.targetAddress {
        assert s[..index][i] == s[i] && s[..index][index - 1] == previous;
      }
      assert forall i :: 0 <= i < index ==> s[..index + 1][i] == s[..index][i];
      index := index + 1;
    }
    assert |s| > 0 ==> s[..|s|] == s;
    return false;
  }

  // ----- one region, from the fields of its segment -----

  /** A region's alignment is the page size or its segment's, whichever is larger; none counts as one. */
  lemma AlignmentMeans(limits: Limits, s: Segment)
    ensures var a := PlannedAlignment(limits, s);
            && limits.pageSize <= a && s.alignment <= a && 1 <= a
            && (a == limits.pageSize || a == s.alignment || (a == 1 && s.alignment == 0))
  {
  }

  /** A segment is placed exactly when its displaced range ends below the end of the address space and its
      alignment is a power of two; only the alignment is reported apart. */
  lemma RebaseMeans(limits: Limits, s: Segment, originalBase: U64, loadBase: U64)
    requires originalBase <= s.virtualAddress
    ensures var r, a := Rebase(limits, s, originalBase, loadBase), PlannedAlignment(limits, s);
            var address := loadBase + (s.virtualAddress - originalBase);
            && (r.Ok? <==> IsPowerOfTwo(a) && address + s.memorySize < TWO64)
            && (r == Err(InvalidAlignment) <==> address < TWO64 && !IsPowerOfTwo(a))
            && (r.Err? ==> r.code == InvalidAlignment || r.code == AddressOverflow)
            && (r.Ok? ==>
                  && r.value.targetAddress == address && r.value.targetSize == s.memorySize
                  && r.value.sourceOffset == s.fileOffset && r.value.sourceSize == s.fileSize
                  && r.value.alignment == a && r.value.permissions == s.permissions && r.value.name == [s.index])
  {
    AlignmentGuard(PlannedAlignment(limits, s));
  }
}
