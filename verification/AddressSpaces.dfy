/** The simulated memory of src/address_space.cc. */
module AddressSpaces {
  import opened Base
  import opened Endian
  import opened OrderedMaps
  import opened Regions

  predicate Permits(permissions: Byte, bit: Byte)
  {
    BitAnd(permissions, bit) != 0
  }

  // ----- when each operation succeeds -----

  ghost function MapVerdict(limits: Limits, m: RegionMap, mapped: nat, base: U64, size: U64): Status
  {
    if size == 0 then Failed(InvalidSegment)
    else if base + size >= TWO64 then Failed(AddressOverflow)
    else if mapped + size > limits.maxMappedBytes then Failed(ResourceLimit)
    else if OverlapsAny(m, base, size) then Failed(MappingOverlap)
    else Done
  }

  /** bit is the permission asked for, 0 when permissions are ignored. */
  function AccessVerdict(m: RegionMap, address: U64, size: U64, bit: Byte): Status
  {
    if size == 0 then Done
    else
      match Covering(m, address, size)
      case None => Failed(MappingMissing)
      case Some(k) => if bit != 0 && !Permits(m[k].permissions, bit) then Failed(PermissionDenied) else Done
  }

  predicate IntegerWidth(width: Byte)
  {
    width == 1 || width == 2 || width == 4 || width == 8
  }

  class AddressSpace {
    var limits: Limits
    var regions: RegionMap
    var mappedBytes: U64

    ghost predicate Valid()
      reads this
    {
      WellFormed(regions) && mappedBytes == TotalSize(regions) <= limits.maxMappedBytes
    }

    constructor (limits: Limits)
      ensures Valid() && this.limits == limits && regions == map[]
    {
      this.limits := limits;
      regions := map[];
      mappedBytes := 0;
    }

    /** map. */
    method Map(base: U64, size: U64, permissions: Byte, name: Text) returns (s: Status)
      requires Valid()
      modifies this
      ensures Valid() && limits == old(limits)
      ensures s == MapVerdict(limits, old(regions), old(mappedBytes), base, size)
      ensures s.Failed? ==> regions == old(regions) && mappedBytes == old(mappedBytes)
      ensures s.Done? ==>
                && regions == old(regions)[base := MemoryRegion(base, size, permissions, name, Zeros(size))]
                && mappedBytes == old(mappedBytes) + size
                && Flat(regions) == AddZeros(old(Flat(regions)), base, size)
    {
      if size == 0 { return Failed(InvalidSegment); }
      var end := CheckedAdd(base, size);
      if end.None? { return Failed(AddressOverflow); }
      var total := CheckedAdd(mappedBytes, size);
      if total.None? || total.value > limits.maxMappedBytes { return Failed(ResourceLimit); }
      NeighboursSuffice(regions, base, size);
      if HasCeiling(regions.Keys, base) && end.value > regions[Ceiling(regions.Keys, base)].base {
        return Failed(MappingOverlap);
      }
      if HasBelow(regions.Keys, base) {
        var previous := regions[Before(regions.Keys, base)];
        var previousEnd := CheckedAdd(previous.base, previous.size);
        if previousEnd.None? || previousEnd.value > base { return Failed(MappingOverlap); }
      }
      var region := MemoryRegion(base, size, permissions, name, Zeros(size));
      MapKeeps(regions, base, region);
      MapAddsZeros(regions, base, region);
      regions := regions[base := region];
      mappedBytes := total.value;
      return Done;
    }

    /** unmap. */
    method Unmap(base: U64) returns (s: Status)
      requires Valid()
      modifies this
      ensures Valid() && limits == old(limits)
      ensures s == if base in old(regions) then Done else Failed(MappingMissing)
      ensures s.Failed? ==> regions == old(regions) && mappedBytes == old(mappedBytes)
      ensures s.Done? ==>
                && regions == old(regions) - {base}
                && mappedBytes == old(mappedBytes) - old(regions)[base].size
                && Flat(regions) == Drop(old(Flat(regions)), base, old(regions)[base].size)
    {
      if base !in regions { return Failed(MappingMissing); }
      UnmapKeeps(regions, base);
      UnmapDrops(regions, base);
      mappedBytes := mappedBytes - regions[base].size;
      regions := regions - {base};
      return Done;
    }

    /** protect. */
    method Protect(base: U64, size: U64, permissions: Byte) returns (s: Status)
      requires Valid()
      modifies this`regions
      ensures Valid()
      ensures s == if base in old(regions) && old(regions)[base].size == size then Done else Failed(MappingMissing)
      ensures s.Failed? ==> regions == old(regions)
      ensures s.Done? ==> regions == old(regions)[base := old(regions)[base].(permissions := permissions)]
      ensures Flat(regions) == old(Flat(regions))
    {
      var found := RegionAt(regions, base);
      RegionAtFinds(regions, base, base);
      if found.None? || regions[found.value].base != base || regions[found.value].size != size {
        return Failed(MappingMissing);
      }
      PermissionsDoNotMatter(regions, base, permissions);
      regions := regions[base := regions[base].(permissions := permissions)];
      return Done;
    }

    /** read. */
    method Read(address: U64, size: U64) returns (s: Status, output: seq<Byte>)
      requires Valid()
      ensures s == AccessVerdict(regions, address, size, PERMISSION_READ)
      ensures s.Failed? ==> output == []
      ensures s.Done? && size == 0 ==> output == []
      ensures s.Done? && size > 0 ==> Covering(regions, address, size).Some? && output == ReadAt(regions, address, size)
    {
      if size == 0 { return Done, []; }
      var found := RegionAt(regions, address);
      if found.None? || !regions[found.value].Contains(address, size) { return Failed(MappingMissing), []; }
      var region := regions[found.value];
      if !Permits(region.permissions, PERMISSION_READ) { return Failed(PermissionDenied), []; }
      return Done, region.bytes[address - region.base..address - region.base + size];
    }

    /** write. */
    method Write(address: U64, input: seq<Byte>, ignorePermissions: bool) returns (s: Status)
      requires Valid() && |input| < TWO64
      modifies this`regions
      ensures Valid()
      ensures s == AccessVerdict(old(regions), address, |input|, if ignorePermissions then 0 else PERMISSION_WRITE)
      ensures regions == if s.Done? then WriteAt(old(regions), address, input) else old(regions)
    {
      if |input| == 0 { return Done; }
      var found := RegionAt(regions, address);
      if found.None? || !regions[found.value].Contains(address, |input|) { return Failed(MappingMissing); }
      var region := regions[found.value];
      if !ignorePermissions && !Permits(region.permissions, PERMISSION_WRITE) { return Failed(PermissionDenied); }
      WriteKeeps(regions, address, input);
      ghost var after := WriteAt(regions, address, input);
      regions := regions[found.value := region.(bytes := Splice(region.bytes, address - region.base, input))];
      assert regions == after;
      return Done;
    }

    /** read_integer. */
    method ReadInteger(address: U64, width: Byte, order: ByteOrder) returns (s: Status, value: U64)
      requires Valid()
      ensures s == if !IntegerWidth(width) then Failed(InvalidRelocation)
                   else AccessVerdict(regions, address, width, PERMISSION_READ)
      ensures s.Done? ==> Covering(regions, address, width).Some?
                          && value == Decode(ReadAt(regions, address, width), order)
    {
      if !IntegerWidth(width) { return Failed(InvalidRelocation), 0; }
      var bytes;
      s, bytes := Read(address, width);
      value := 0;
      if s.Failed? { return; }
      value := AssembleInteger(bytes, order);
    }

    /** write_integer. */
    method WriteInteger(address: U64, width: Byte, order: ByteOrder, value: U64, ignorePermissions: bool)
      returns (s: Status)
      requires Valid()
      modifies this`regions
      ensures Valid()
      ensures s == if !IntegerWidth(width) then Failed(InvalidRelocation)
                   else AccessVerdict(old(regions), address, width,
                                      if ignorePermissions then 0 else PERMISSION_WRITE)
      ensures regions == if s.Done? then WriteAt(old(regions), address, Encode(value, width, order))
                         else old(regions)
    {
      if !IntegerWidth(width) { return Failed(InvalidRelocation); }
      var n := width;
      var bytes := SplitInteger(value, n, order);
      s := Write(address, bytes, ignorePermissions);
    }

    /** clear. */
    method Clear()
      modifies this`regions, this`mappedBytes
      ensures Valid() && regions == map[] && mappedBytes == 0
    {
      regions := map[];
      mappedBytes := 0;
    }
  }

  lemma PermissionsDoNotMatter(m: RegionMap, base: U64, permissions: Byte)
    requires WellFormed(m) && base in m
    ensures var n := m[base := m[base].(permissions := permissions)];
            WellFormed(n) && TotalSize(n) == TotalSize(m) && Flat(n) == Flat(m)
  {
    var n := m[base := m[base].(permissions := permissions)];
    TotalReplace(m, base, n[base]);
    forall i, j | i in n && j in n && i != j ensures Apart(n[i], n[j]) { assert Apart(m[i], m[j]); }
    SameBytesSameFlat(m, n);
  }

  /** A byte is in flat memory exactly when region_at finds its region. */
  lemma MappedMeansFound(m: RegionMap, address: U64)
    requires WellFormed(m)
    ensures address in Flat(m) <==> RegionAt(m, address).Some?
  {
    if address in Flat(m) {
      var k := Owner(m, address);
      assert RegionOk(k, m[k]);
      RegionAtFinds(m, address, k);
    }
    if RegionAt(m, address).Some? {
      var k := RegionAt(m, address).value;
      RegionAtFinds(m, address, k);
      assert Holds(m, k, address);
    }
  }

  /** What write_integer stored, read_integer gives back, in either byte order: every value that fits
      the width, and of any other its low bytes. */
  lemma IntegerRoundTrip(m: RegionMap, address: U64, width: Byte, order: ByteOrder, value: U64)
    requires WellFormed(m) && IntegerWidth(width) && Covering(m, address, width).Some?
    ensures var n := WriteAt(m, address, Encode(value, width, order));
            WellFormed(n) && Covering(n, address, width).Some?
            && Decode(ReadAt(n, address, width), order) == value % Pow256(width)
  {
    var data := Encode(value, width, order);
    WriteReadBack(m, address, data);
    EncodeTruncates(value, width, order);
  }

  // ----- the verdicts, from the fields of the regions -----

  /** Bit number 0, 1 or 2 of the permissions allows reading, writing or executing. */
  lemma PermitsMeans(permissions: Byte)
    ensures Permits(permissions, PERMISSION_READ) <==> permissions % 2 == 1
    ensures Permits(permissions, PERMISSION_WRITE) <==> permissions / 2 % 2 == 1
    ensures Permits(permissions, PERMISSION_EXECUTE) <==> permissions / 4 % 2 == 1
  {
    assert Pow2(1) == 2 && Pow2(2) == 4;
    OneBit(permissions, 0);
    OneBit(permissions, 1);
    OneBit(permissions, 2);
  }

  lemma OverlapMeansMapped(m: RegionMap, base: U64, size: U64)
    requires WellFormed(m) && size > 0
    ensures OverlapsAny(m, base, size) <==> exists a {:trigger InRange(a, base, size)} ::
              InRange(a, base, size) && a in Flat(m)
  {
    if OverlapsAny(m, base, size) {
      var k :| k in m && Overlaps(m[k], base, size);
      assert RegionOk(k, m[k]);
      var a := if m[k].base < base then base else m[k].base;
      FlatAt(m, k, a);
      assert InRange(a, base, size) && a in Flat(m);
    }
    if exists a :: InRange(a, base, size) && a in Flat(m) {
      var a :| InRange(a, base, size) && a in Flat(m);
      assert Overlaps(m[Owner(m, a)], base, size);
    }
  }

  /** map succeeds exactly when there are bytes to map, below the end of the address space and within the
      limit, none of which is mapped already; an overlap is what is reported when only that is wrong. */
  lemma MapMeans(limits: Limits, m: RegionMap, mapped: nat, base: U64, size: U64)
    requires WellFormed(m)
    ensures MapVerdict(limits, m, mapped, base, size).Done? <==>
            && 0 < size && base + size < TWO64 && mapped + size <= limits.maxMappedBytes
            && forall a {:trigger InRange(a, base, size)} :: InRange(a, base, size) ==> a !in Flat(m)
    ensures MapVerdict(limits, m, mapped, base, size) == Failed(MappingOverlap) <==>
            && 0 < size && base + size < TWO64 && mapped + size <= limits.maxMappedBytes
            && exists a {:trigger InRange(a, base, size)} :: InRange(a, base, size) && a in Flat(m)
  {
    if size > 0 { OverlapMeansMapped(m, base, size); }
  }

  /** Some region contains the range and has bit number b of its permissions set. */
  ghost predicate AllowedIn(m: RegionMap, address: int, size: int, b: nat)
  {
    exists k: U64 :: InRegion(m, k, address, size) && HasBit(m[k].permissions, b)
  }

  /** An access succeeds exactly when it has no bytes, or one region contains it and permits it, or contains
      it where permissions are ignored; it is missing when no region contains it. */
  lemma AccessMeans(m: RegionMap, address: U64, size: U64, bit: Byte, b: nat)
    requires WellFormed(m) && bit == Pow2(b)
    ensures AccessVerdict(m, address, size, bit).Done? <==> size == 0 || AllowedIn(m, address, size, b)
    ensures AccessVerdict(m, address, size, 0).Done? <==> size == 0 || InOneRegion(m, address, size)
    ensures AccessVerdict(m, address, size, bit) == Failed(MappingMissing) <==>
            size > 0 && !InOneRegion(m, address, size)
    ensures AccessVerdict(m, address, size, bit).Failed? ==>
            AccessVerdict(m, address, size, bit).code in {MappingMissing, PermissionDenied}
  {
    if size > 0 {
      CoveringMeans(m, address, size);
      if Covering(m, address, size).Some? {
        var k := Covering(m, address, size).value;
        OneBit(m[k].permissions, b);
        CoveringFinds(m, address, size, k);
        assert InRegion(m, k, address, size);
      }
      if AllowedIn(m, address, size, b) {
        var k: U64 :| InRegion(m, k, address, size) && HasBit(m[k].permissions, b);
        OneBit(m[k].permissions, b);
      }
    }
  }
}
