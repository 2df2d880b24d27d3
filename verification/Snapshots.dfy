/** MemorySnapshotCodec::capture and restore of src/snapshot.cc. */
module Snapshots {
  import opened AddressSpaces
  import opened Base
  import opened Crc
  import opened OrderedMaps
  import opened Regions

  datatype SnapshotRegion = SnapshotRegion(
    base: U64, size: U64, permissions: Byte, name: Text, checksum: U32, bytes: Blob)

  datatype MemorySnapshot = MemorySnapshot(version: U32, mappedBytes: U64, regions: seq<SnapshotRegion>)

  // ----- capture -----

  function Snap(r: MemoryRegion, includeBytes: bool): SnapshotRegion
    requires |r.bytes| < TWO64
  {
    SnapshotRegion(r.base, r.size, r.permissions, r.name, ChecksumValue(r.bytes),
                   if includeBytes then r.bytes else [])
  }

  ghost predicate Recorded(regions: seq<SnapshotRegion>, base: U64)
  {
    exists i {:trigger regions[i]} :: 0 <= i < |regions| && regions[i].base == base
  }

  ghost predicate SnapOf(m: RegionMap, s: SnapshotRegion, withBytes: bool)
    requires WellFormed(m)
  {
    && s.base in m && RegionOk(s.base, m[s.base])
    && var r := m[s.base];
       && s.size == r.size && s.permissions == r.permissions && s.name == r.name
       && s.checksum == ChecksumValue(r.bytes) && s.bytes == if withBytes then r.bytes else []
  }

  predicate Below(a: SnapshotRegion, b: SnapshotRegion)
  {
    a.base < b.base
  }

  /** Every region of memory is recorded, and nothing else, by ascending address. */
  ghost predicate IsCapture(m: RegionMap, mapped: U64, withBytes: bool, s: MemorySnapshot)
    requires WellFormed(m)
  {
    && s.version == 1 && s.mappedBytes == mapped && |s.regions| == |m.Keys|
    && (forall i {:trigger s.regions[i]} :: 0 <= i < |s.regions| ==> SnapOf(m, s.regions[i], withBytes))
    && (forall i, j {:trigger Below(s.regions[i], s.regions[j])} ::
          0 <= i < j < |s.regions| ==> Below(s.regions[i], s.regions[j]))
    && (forall k {:trigger Recorded(s.regions, k)} :: k in m ==> Recorded(s.regions, k))
  }

  /** The regions at the first keys have been recorded. */
  ghost predicate SnappedTo(m: RegionMap, keys: seq<nat>, regions: seq<SnapshotRegion>, withBytes: bool)
    requires WellFormed(m)
  {
    |regions| <= |keys| && forall j {:trigger regions[j]} :: 0 <= j < |regions| ==>
      regions[j].base == keys[j] && SnapOf(m, regions[j], withBytes)
  }

  lemma KeyFound(m: RegionMap, keys: seq<nat>, i: nat)
    requires WellFormed(m) && keys == Ascending(m.Keys) && i < |keys|
    ensures keys[i] < TWO64 && keys[i] in m && RegionOk(keys[i], m[keys[i]])
  {
    assert keys[i] in keys;
  }

  lemma OneMoreSnapped(m: RegionMap, keys: seq<nat>, regions: seq<SnapshotRegion>, s: SnapshotRegion, withBytes: bool)
    requires WellFormed(m) && SnappedTo(m, keys, regions, withBytes) && |regions| < |keys|
    requires s.base == keys[|regions|] && SnapOf(m, s, withBytes)
    ensures SnappedTo(m, keys, regions + [s], withBytes)
  {
  }

  lemma KeyRecorded(m: RegionMap, keys: seq<nat>, regions: seq<SnapshotRegion>, withBytes: bool, k: U64)
    requires WellFormed(m) && |regions| == |keys| && SnappedTo(m, keys, regions, withBytes)
    requires k in keys
    ensures Recorded(regions, k)
  {
    var i :| 0 <= i < |keys| && keys[i] == k;
    assert regions[i].base == k;
  }

  lemma AllSnapped(m: RegionMap, mapped: U64, keys: seq<nat>, regions: seq<SnapshotRegion>, withBytes: bool)
    requires WellFormed(m) && |regions| == |keys| == |m.Keys| && SnappedTo(m, keys, regions, withBytes)
    requires forall k: U64 {:trigger k in m} :: k in m ==> k in keys
    requires forall i, j {:trigger keys[i], keys[j]} :: 0 <= i < j < |keys| ==> keys[i] < keys[j]
    ensures IsCapture(m, mapped, withBytes, MemorySnapshot(1, mapped, regions))
  {
    forall k | k in m ensures Recorded(regions, k) { KeyRecorded(m, keys, regions, withBytes, k); }
    forall i, j {:trigger Below(regions[i], regions[j])} | 0 <= i < j < |regions|
      ensures Below(regions[i], regions[j])
    {
      OneBelow(m, keys, regions, withBytes, i, j);
    }
  }

  lemma OneBelow(m: RegionMap, keys: seq<nat>, regions: seq<SnapshotRegion>, withBytes: bool, i: nat, j: nat)
    requires WellFormed(m) && SnappedTo(m, keys, regions, withBytes) && i < j < |regions| && keys[i] < keys[j]
    ensures Below(regions[i], regions[j])
  {
    var a, b := regions[i].base, regions[j].base;
    assert SnapOf(m, regions[i], withBytes) && SnapOf(m, regions[j], withBytes);
    assert Apart(m[a], m[b]);
  }

  method SnapRegion(source: MemoryRegion, includeBytes: bool) returns (s: SnapshotRegion)
    requires |source.bytes| < TWO64
    ensures s == Snap(source, includeBytes)
  {
    var checksum := Crc32(source.bytes);
    s := SnapshotRegion(source.base, source.size, source.permissions, source.name, WordValue(checksum),
                        if includeBytes then source.bytes else []);
  }

  /** The loop in capture. */
  method SnapRegions(m: RegionMap, mapped: U64, includeBytes: bool) returns (regions: seq<SnapshotRegion>)
    requires WellFormed(m)
    ensures IsCapture(m, mapped, includeBytes, MemorySnapshot(1, mapped, regions))
  {
    var keys := Ascending(m.Keys);
    regions := [];
    for i := 0 to |keys|
      invariant |regions| == i && SnappedTo(m, keys, regions, includeBytes)
    {
      KeyFound(m, keys, i);
      var region := SnapRegion(m[keys[i]], includeBytes);
      OneMoreSnapped(m, keys, regions, region, includeBytes);
      regions := regions + [region];
    }
    CaptureComplete(m, mapped, keys, regions, includeBytes);
  }

  lemma CaptureComplete(m: RegionMap, mapped: U64, keys: seq<nat>, regions: seq<SnapshotRegion>, withBytes: bool)
    requires WellFormed(m) && keys == Ascending(m.Keys) && |regions| == |keys|
    requires SnappedTo(m, keys, regions, withBytes)
    ensures IsCapture(m, mapped, withBytes, MemorySnapshot(1, mapped, regions))
  {
    AllSnapped(m, mapped, keys, regions, withBytes);
  }

  /** capture. */
  method Capture(limits: Limits, memory: AddressSpace, includeBytes: bool) returns (r: Result<MemorySnapshot>)
    requires memory.Valid()
    ensures r.Ok? <==> memory.mappedBytes <= limits.maxMappedBytes && |memory.regions.Keys| <= limits.maxSegments
    ensures r.Err? ==> r.code == ResourceLimit
    ensures r.Ok? ==> IsCapture(memory.regions, memory.mappedBytes, includeBytes, r.value)
  {
    if memory.mappedBytes > limits.maxMappedBytes || |memory.regions.Keys| > limits.maxSegments {
      return Err(ResourceLimit);
    }
    var regions := SnapRegions(memory.regions, memory.mappedBytes, includeBytes);
    return Ok(MemorySnapshot(1, memory.mappedBytes, regions));
  }

  // ----- what can be restored, and to what -----

  /** Everything restore asks of one region by itself. */
  predicate RegionGood(limits: Limits, s: SnapshotRegion)
  {
    && 0 < s.size && s.base + s.size < TWO64
    && |s.name| <= limits.maxStringBytes
    && (s.bytes == [] || (|s.bytes| == s.size && ChecksumValue(s.bytes) == s.checksum))
  }

  predicate Collide(a: SnapshotRegion, b: SnapshotRegion)
  {
    a.base < b.base + b.size && b.base < a.base + a.size
  }

  function SumSizes(regions: seq<SnapshotRegion>, n: nat): nat
    requires n <= |regions|
  {
    if n == 0 then 0 else SumSizes(regions, n - 1) + regions[n - 1].size
  }

  ghost predicate RegionsGood(limits: Limits, regions: seq<SnapshotRegion>, n: nat)
    requires n <= |regions|
  {
    && (forall i {:trigger RegionGood(limits, regions[i])} :: 0 <= i < n ==> RegionGood(limits, regions[i]))
    && (forall i, j {:trigger Collide(regions[i], regions[j])} ::
          0 <= i < j < n ==> !Collide(regions[i], regions[j]))
  }

  /** The version is known, the totals agree and are within limits, and the regions are good
      and disjoint. */
  ghost predicate Restorable(limits: Limits, s: MemorySnapshot)
  {
    && s.version == 1 && |s.regions| <= limits.maxSegments
    && s.mappedBytes == SumSizes(s.regions, |s.regions|) <= limits.maxMappedBytes
    && RegionsGood(limits, s.regions, |s.regions|)
  }

  /** A region that was captured without its bytes comes back zero-filled. */
  function Remade(s: SnapshotRegion): MemoryRegion
  {
    MemoryRegion(s.base, s.size, s.permissions, s.name, if s.bytes == [] then Zeros(s.size) else s.bytes)
  }

  function Rebuilt(regions: seq<SnapshotRegion>, n: nat): RegionMap
    requires n <= |regions|
  {
    if n == 0 then map[] else Rebuilt(regions, n - 1)[regions[n - 1].base := Remade(regions[n - 1])]
  }

  lemma {:induction false} RebuiltKeys(regions: seq<SnapshotRegion>, n: nat)
    requires n <= |regions|
    ensures forall k {:trigger k in Rebuilt(regions, n)} :: k in Rebuilt(regions, n) ==>
              exists i :: 0 <= i < n && regions[i].base == k && Rebuilt(regions, n)[k] == Remade(regions[i])
    ensures forall i {:trigger regions[i]} :: 0 <= i < n ==> regions[i].base in Rebuilt(regions, n)
  {
    if n > 0 { RebuiltKeys(regions, n - 1); }
  }

  /** A candidate collides with a restored region iff it overlaps one in the rebuilt map. */
  lemma CollisionsFound(limits: Limits, regions: seq<SnapshotRegion>, n: nat)
    requires n < |regions| && RegionsGood(limits, regions, n) && regions[n].size > 0
    ensures OverlapsAny(Rebuilt(regions, n), regions[n].base, regions[n].size) <==>
            exists i :: 0 <= i < n && Collide(regions[i], regions[n])
  {
    var m := Rebuilt(regions, n);
    RebuiltKeys(regions, n);
    if OverlapsAny(m, regions[n].base, regions[n].size) {
      var k :| k in m && Overlaps(m[k], regions[n].base, regions[n].size);
      var i :| 0 <= i < n && regions[i].base == k && m[k] == Remade(regions[i]);
      assert Collide(regions[i], regions[n]);
    }
    if i :| 0 <= i < n && Collide(regions[i], regions[n]) {
      var k := regions[i].base;
      var j :| 0 <= j < n && regions[j].base == k && m[k] == Remade(regions[j]);
      assert RegionGood(limits, regions[i]) && RegionGood(limits, regions[j]);
      SameBaseSameRegion(limits, regions, n, i, j);
      assert Overlaps(m[k], regions[n].base, regions[n].size);
    }
  }

  lemma SameBaseSameRegion(limits: Limits, regions: seq<SnapshotRegion>, n: nat, i: nat, j: nat)
    requires n <= |regions| && RegionsGood(limits, regions, n) && i < n && j < n
    requires regions[i].base == regions[j].base
    ensures i == j
  {
    assert RegionGood(limits, regions[i]) && RegionGood(limits, regions[j]);
    assert !(i < j) || !Collide(regions[i], regions[j]);
    assert !(j < i) || !Collide(regions[j], regions[i]);
  }

  // ----- restore -----

  /** One turn of the loop in restore: what it does to the staged regions, or why it stops. */
  function StepVerdict(limits: Limits, total: nat, s: SnapshotRegion): Status
  {
    if s.size == 0 || s.size > limits.maxMappedBytes || |s.name| > limits.maxStringBytes
       || (s.bytes != [] && |s.bytes| != s.size)
    then Failed(InvalidSegment)
    else if total + s.size > limits.maxMappedBytes then Failed(ResourceLimit)
    else Done
  }

  lemma MappedThenWritten(m: RegionMap, s: SnapshotRegion)
    requires WellFormed(m) && 0 < s.size && s.base + s.size < TWO64 && |s.bytes| == s.size
    requires !OverlapsAny(m, s.base, s.size)
    ensures var n := m[s.base := MemoryRegion(s.base, s.size, s.permissions, s.name, Zeros(s.size))];
            && WellFormed(n) && Covering(n, s.base, s.size) == Some(s.base)
            && WriteAt(n, s.base, s.bytes) == m[s.base := Remade(s)]
  {
    var region := MemoryRegion(s.base, s.size, s.permissions, s.name, Zeros(s.size));
    var n := m[s.base := region];
    MapKeeps(m, s.base, region);
    CoveringFinds(n, s.base, s.size, s.base);
    assert Splice(Zeros(s.size), 0, s.bytes) == s.bytes;
  }

  /** When the loop in restore goes on past a region. */
  ghost predicate Accepted(limits: Limits, m: RegionMap, total: nat, s: SnapshotRegion)
  {
    RegionGood(limits, s) && total + s.size <= limits.maxMappedBytes && !OverlapsAny(m, s.base, s.size)
  }

  /** Why the loop stops at a region, or Done. */
  ghost function RegionVerdict(limits: Limits, m: RegionMap, total: nat, s: SnapshotRegion): Status
  {
    if StepVerdict(limits, total, s).Failed? then StepVerdict(limits, total, s)
    else if MapVerdict(limits, m, total, s.base, s.size).Failed? then MapVerdict(limits, m, total, s.base, s.size)
    else if s.bytes != [] && ChecksumValue(s.bytes) != s.checksum then Failed(InvalidHeader)
    else Done
  }

  /** Size, name and bytes of a snapshot region are as restore asks. */
  predicate WellShaped(limits: Limits, s: SnapshotRegion)
  {
    && 0 < s.size <= limits.maxMappedBytes && |s.name| <= limits.maxStringBytes
    && (s.bytes == [] || |s.bytes| == s.size)
  }

  /** The first defect of a region, in the order in which restore looks for them: its shape, the total, the
      end of the address space, an overlap, the checksum. */
  lemma RegionVerdictMeans(limits: Limits, m: RegionMap, total: nat, s: SnapshotRegion)
    ensures var v := RegionVerdict(limits, m, total, s);
            && (v == Failed(InvalidSegment) <==> !WellShaped(limits, s))
            && (v == Failed(ResourceLimit) <==> WellShaped(limits, s) && total + s.size > limits.maxMappedBytes)
            && (v == Failed(AddressOverflow) <==>
                  && WellShaped(limits, s) && total + s.size <= limits.maxMappedBytes
                  && s.base + s.size >= TWO64)
            && (v == Failed(MappingOverlap) <==>
                  && WellShaped(limits, s) && total + s.size <= limits.maxMappedBytes
                  && s.base + s.size < TWO64 && OverlapsAny(m, s.base, s.size))
            && (v == Failed(InvalidHeader) <==>
                  && WellShaped(limits, s) && total + s.size <= limits.maxMappedBytes
                  && s.base + s.size < TWO64 && !OverlapsAny(m, s.base, s.size)
                  && s.bytes != [] && ChecksumValue(s.bytes) != s.checksum)
            && (v.Done? <==> Accepted(limits, m, total, s))
  {
  }

  /** The body of the loop in restore. */
  method StageRegion(limits: Limits, staged: AddressSpace, s: SnapshotRegion) returns (r: Status)
    requires staged.Valid() && staged.limits == limits
    modifies staged
    ensures staged.Valid() && staged.limits == limits
    ensures r == RegionVerdict(limits, old(staged.regions), old(staged.mappedBytes), s)
    ensures r.Done? <==> Accepted(limits, old(staged.regions), old(staged.mappedBytes), s)
    ensures r.Done? ==> staged.regions == old(staged.regions)[s.base := Remade(s)]
                        && staged.mappedBytes == old(staged.mappedBytes) + s.size
  {
    r := StepVerdict(limits, staged.mappedBytes, s);
    if r.Failed? { return; }
    ghost var before := staged.regions;
    r := staged.Map(s.base, s.size, s.permissions, s.name);
    if r.Failed? || s.bytes == [] { return; }
    var checksum := Crc32(s.bytes);
    if WordValue(checksum) != s.checksum { return Failed(InvalidHeader); }
    MappedThenWritten(before, s);
    r := staged.Write(s.base, s.bytes, true);
  }

  lemma {:induction false} SumGrows(regions: seq<SnapshotRegion>, m: nat, n: nat)
    requires m <= n <= |regions|
    ensures SumSizes(regions, m) <= SumSizes(regions, n)
  {
    if m < n { SumGrows(regions, m, n - 1); }
  }

  /** The first n regions have been staged. */
  ghost predicate StagedTo(limits: Limits, regions: seq<SnapshotRegion>, n: nat, m: RegionMap, total: nat)
    requires n <= |regions|
  {
    RegionsGood(limits, regions, n) && m == Rebuilt(regions, n) && total == SumSizes(regions, n)
  }

  /** The loop goes on exactly as long as the snapshot can still be restorable. */
  lemma TurnDecides(limits: Limits, s: MemorySnapshot, n: nat, m: RegionMap, total: nat)
    requires n < |s.regions| && StagedTo(limits, s.regions, n, m, total)
    ensures var next := s.regions[n];
            if Accepted(limits, m, total, next)
            then StagedTo(limits, s.regions, n + 1, m[next.base := Remade(next)], total + next.size)
            else !Restorable(limits, s)
  {
    SumGrows(s.regions, n + 1, |s.regions|);
    if RegionGood(limits, s.regions[n]) { CollisionsFound(limits, s.regions, n); }
  }

  /** The verdict on region i behind all regions before it. */
  ghost function VerdictAt(limits: Limits, s: MemorySnapshot, i: nat): Status
    requires i < |s.regions|
  {
    RegionVerdict(limits, Rebuilt(s.regions, i), SumSizes(s.regions, i), s.regions[i])
  }

  /** The first n regions are accepted, one behind the other. */
  ghost predicate StagedUpTo(limits: Limits, s: MemorySnapshot, n: nat)
    requires n <= |s.regions|
  {
    forall i {:trigger VerdictAt(limits, s, i)} :: 0 <= i < n ==> VerdictAt(limits, s, i).Done?
  }

  /** Region i is the first that cannot be staged, for this reason. */
  ghost predicate StopsAt(limits: Limits, s: MemorySnapshot, i: nat, code: ErrorCode)
  {
    i < |s.regions| && StagedUpTo(limits, s, i) && VerdictAt(limits, s, i) == Failed(code)
  }

  /** The loop in restore. */
  method StageRegions(limits: Limits, snapshot: MemorySnapshot, staged: AddressSpace) returns (r: Status)
    requires staged.Valid() && staged.limits == limits && staged.regions == map[]
    modifies staged
    ensures staged.Valid() && staged.limits == limits
    ensures r.Done? ==> StagedTo(limits, snapshot.regions, |snapshot.regions|, staged.regions, staged.mappedBytes)
    ensures r.Done? ==> StagedUpTo(limits, snapshot, |snapshot.regions|)
    ensures r.Failed? ==> !Restorable(limits, snapshot)
    ensures r.Failed? ==> exists i :: StopsAt(limits, snapshot, i, r.code)
  {
    for i := 0 to |snapshot.regions|
      invariant staged.Valid() && staged.limits == limits
      invariant StagedTo(limits, snapshot.regions, i, staged.regions, staged.mappedBytes)
      invariant StagedUpTo(limits, snapshot, i)
    {
      TurnDecides(limits, snapshot, i, staged.regions, staged.mappedBytes);
      r := StageRegion(limits, staged, snapshot.regions[i]);
      assert r == VerdictAt(limits, snapshot, i);
      if r.Failed? {
        assert StopsAt(limits, snapshot, i, r.code);
        return;
      }
    }
    r := Done;
  }

  predicate MetadataBad(limits: Limits, s: MemorySnapshot)
  {
    s.version != 1 || s.mappedBytes > limits.maxMappedBytes || |s.regions| > limits.maxSegments
  }

  /** The error of restore: that of the metadata, else of the first bad region, else of the total. */
  ghost predicate RestoreFails(limits: Limits, s: MemorySnapshot, code: ErrorCode)
  {
    if MetadataBad(limits, s) then code == ResourceLimit
    else
      || (exists i :: StopsAt(limits, s, i, code))
      || (code == InvalidHeader && s.mappedBytes != SumSizes(s.regions, |s.regions|)
          && StagedUpTo(limits, s, |s.regions|))
  }

  lemma StopsOnce(limits: Limits, s: MemorySnapshot, i: nat, a: ErrorCode, j: nat, b: ErrorCode)
    requires StopsAt(limits, s, i, a) && StopsAt(limits, s, j, b)
    ensures a == b
  {
  }

  lemma StopsShort(limits: Limits, s: MemorySnapshot, i: nat, code: ErrorCode)
    requires StopsAt(limits, s, i, code)
    ensures !StagedUpTo(limits, s, |s.regions|)
  {
    assert VerdictAt(limits, s, i).Failed?;
  }

  /** The snapshot alone decides the error. */
  lemma RestoreFailsOnce(limits: Limits, s: MemorySnapshot, a: ErrorCode, b: ErrorCode)
    requires RestoreFails(limits, s, a) && RestoreFails(limits, s, b)
    ensures a == b
  {
    if !MetadataBad(limits, s) {
      if i :| StopsAt(limits, s, i, a) {
        StopsShort(limits, s, i, a);
        var j :| StopsAt(limits, s, j, b);
        StopsOnce(limits, s, i, a, j, b);
      } else if j :| StopsAt(limits, s, j, b) {
        StopsShort(limits, s, j, b);
      }
    }
  }

  /** restore: succeeds exactly on restorable snapshots, replaces the whole address space, and
      leaves it alone when it fails. */
  method Restore(limits: Limits, snapshot: MemorySnapshot, memory: AddressSpace) returns (r: Status)
    requires memory.Valid()
    modifies memory
    ensures memory.Valid()
    ensures r.Done? <==> Restorable(limits, snapshot)
    ensures r.Done? ==> memory.limits == limits && memory.mappedBytes == snapshot.mappedBytes
                        && memory.regions == Rebuilt(snapshot.regions, |snapshot.regions|)
    ensures r.Failed? ==> unchanged(memory) && RestoreFails(limits, snapshot, r.code)
  {
    if MetadataBad(limits, snapshot) { return Failed(ResourceLimit); }
    var staged := new AddressSpace(limits);
    r := StageRegions(limits, snapshot, staged);
    if r.Failed? { return; }
    if snapshot.mappedBytes != staged.mappedBytes { return Failed(InvalidHeader); }
    memory.limits, memory.regions, memory.mappedBytes := staged.limits, staged.regions, staged.mappedBytes;
  }

  // ----- restore inverts capture -----

  ghost predicate NamesFit(limits: Limits, m: RegionMap)
  {
    forall k {:trigger m[k]} :: k in m ==> |m[k].name| <= limits.maxStringBytes
  }

  function Refill(r: MemoryRegion, withBytes: bool): MemoryRegion
  {
    if withBytes then r else r.(bytes := Zeros(r.size))
  }

  /** The regions as they were, with their bytes or zero-filled. */
  function Refilled(m: RegionMap, withBytes: bool): RegionMap
  {
    map k | k in m :: Refill(m[k], withBytes)
  }

  lemma CaptureGood(limits: Limits, m: RegionMap, mapped: U64, withBytes: bool, s: MemorySnapshot)
    requires WellFormed(m) && NamesFit(limits, m) && IsCapture(m, mapped, withBytes, s)
    ensures RegionsGood(limits, s.regions, |s.regions|)
  {
    forall i, j | 0 <= i < j < |s.regions| ensures !Collide(s.regions[i], s.regions[j]) {
      assert Below(s.regions[i], s.regions[j]);
      assert Apart(m[s.regions[i].base], m[s.regions[j].base]);
    }
  }

  lemma RebuiltAt(m: RegionMap, mapped: U64, withBytes: bool, s: MemorySnapshot, k: U64)
    requires WellFormed(m) && IsCapture(m, mapped, withBytes, s)
    ensures var r := Rebuilt(s.regions, |s.regions|);
            (k in m <==> k in r) && (k in m ==> r[k] == Refill(m[k], withBytes))
  {
    var r := Rebuilt(s.regions, |s.regions|);
    RebuiltKeys(s.regions, |s.regions|);
    if k in m {
      assert Recorded(s.regions, k);
      var i :| 0 <= i < |s.regions| && s.regions[i].base == k;
      assert s.regions[i].base in r;
    }
    if k in r {
      var i :| 0 <= i < |s.regions| && s.regions[i].base == k && r[k] == Remade(s.regions[i]);
      assert SnapOf(m, s.regions[i], withBytes);
    }
  }

  /** Rebuilding the captured regions gives the captured memory: all of it, or its zero-filled
      shape when the bytes were left out. */
  lemma RebuiltIsRefilled(m: RegionMap, mapped: U64, withBytes: bool, s: MemorySnapshot)
    requires WellFormed(m) && IsCapture(m, mapped, withBytes, s)
    ensures Rebuilt(s.regions, |s.regions|) == Refilled(m, withBytes)
  {
    var r := Rebuilt(s.regions, |s.regions|);
    forall k: U64 {:trigger r[k]} {:trigger k in r}
      ensures (k in m <==> k in r) && (k in m ==> r[k] == Refill(m[k], withBytes))
    {
      RebuiltAt(m, mapped, withBytes, s, k);
    }
  }

  lemma LastIsNew(limits: Limits, regions: seq<SnapshotRegion>, n: nat)
    requires n < |regions| && RegionsGood(limits, regions, n + 1)
    ensures regions[n].base !in Rebuilt(regions, n)
  {
    RebuiltKeys(regions, n);
    var k := regions[n].base;
    if k in Rebuilt(regions, n) {
      var i :| 0 <= i < n && regions[i].base == k;
      SameBaseSameRegion(limits, regions, n + 1, i, n);
    }
  }

  lemma {:induction false} RebuiltTotal(limits: Limits, regions: seq<SnapshotRegion>, n: nat)
    requires n <= |regions| && RegionsGood(limits, regions, n)
    ensures TotalSize(Rebuilt(regions, n)) == SumSizes(regions, n)
  {
    if n > 0 {
      LastIsNew(limits, regions, n - 1);
      RebuiltTotal(limits, regions, n - 1);
      TotalWith(Rebuilt(regions, n - 1), regions[n - 1].base, Remade(regions[n - 1]));
    }
  }

  lemma {:induction false} SameSizesSameTotal(m: RegionMap, n: RegionMap)
    requires m.Keys == n.Keys && forall k {:trigger n[k]} :: k in m ==> m[k].size == n[k].size
    ensures TotalSize(m) == TotalSize(n)
    decreases |m.Keys|
  {
    if m.Keys != {} {
      var k := Least(m.Keys);
      SameSizesSameTotal(m - {k}, n - {k});
    }
  }

  lemma RefilledShape(m: RegionMap, withBytes: bool)
    requires WellFormed(m)
    ensures var n := Refilled(m, withBytes);
            WellFormed(n) && SameShape(m, n) && TotalSize(n) == TotalSize(m) && (withBytes ==> n == m)
  {
    var z := Refilled(m, withBytes);
    SameSizesSameTotal(m, z);
    forall j, k | j in z && k in z && j != k ensures Apart(z[j], z[k]) { assert Apart(m[j], m[k]); }
    forall k | k in z ensures RegionOk(k, z[k]) { assert RegionOk(k, m[k]); }
  }

  /** Every captured memory whose names fit the limit can be restored. A capture with bytes gives
      back the identical region map and total; one without gives the same regions zero-filled. */
  lemma RestoreInvertsCapture(limits: Limits, m: RegionMap, mapped: U64, withBytes: bool, s: MemorySnapshot)
    requires WellFormed(m) && NamesFit(limits, m) && IsCapture(m, mapped, withBytes, s)
    requires mapped == TotalSize(m) <= limits.maxMappedBytes && |m.Keys| <= limits.maxSegments
    ensures Restorable(limits, s) && Rebuilt(s.regions, |s.regions|) == Refilled(m, withBytes)
    ensures withBytes ==> Rebuilt(s.regions, |s.regions|) == m
    ensures SameShape(m, Rebuilt(s.regions, |s.regions|))
  {
    CaptureGood(limits, m, mapped, withBytes, s);
    RebuiltIsRefilled(m, mapped, withBytes, s);
    RebuiltTotal(limits, s.regions, |s.regions|);
    RefilledShape(m, withBytes);
  }
}
