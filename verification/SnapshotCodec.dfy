/** MemorySnapshotCodec::encode and decode of src/snapshot.cc. */
module SnapshotCodec {
  import opened Base
  import opened Containers
  import opened Crc
  import opened Cursors
  import opened Endian
  import opened LinearRegister
  import opened Readers
  import opened RecordLists
  import opened Regions
  import opened Snapshots

  const MAGIC: seq<Byte> := [0x42, 0x46, 0x53, 0x4E]  // "BFSN"

  // ----- the format -----

  /** The twenty-one bytes in front of a region's name. */
  function RegionFront(s: SnapshotRegion): (r: seq<Byte>)
    ensures |r| == 21
  {
    LittleEndian(s.base, 8) + (LittleEndian(s.size, 8) + ([s.permissions] + LittleEndian(|s.name| % TWO32, 4)))
  }

  /** The twelve bytes between a region's name and its bytes. */
  function RegionBack(s: SnapshotRegion): (r: seq<Byte>)
    ensures |r| == 12
  {
    LittleEndian(s.checksum, 4) + LittleEndian(|s.bytes|, 8)
  }

  function EncodeRegion(s: SnapshotRegion): seq<Byte>
  {
    RegionFront(s) + (s.name + (RegionBack(s) + s.bytes))
  }

  function SnapshotHeader(s: MemorySnapshot): (r: seq<Byte>)
    ensures |r| == 16
  {
    LittleEndian(s.version, 4) + (LittleEndian(s.mappedBytes, 8) + LittleEndian(|s.regions| % TWO32, 4))
  }

  /** What stands between the magic number and the trailer. */
  function Payload(s: MemorySnapshot): seq<Byte>
  {
    SnapshotHeader(s) + EncodeList(EncodeRegion, s.regions, |s.regions|)
  }

  function Container(s: MemorySnapshot): seq<Byte>
  {
    Wrap(MAGIC, Payload(s))
  }

  // ----- the limits -----

  predicate RegionStorable(limits: Limits, s: SnapshotRegion)
  {
    |s.name| <= limits.maxStringBytes && |s.name| < TWO32 && |s.bytes| <= limits.maxMappedBytes
  }

  function StorableTest(limits: Limits): SnapshotRegion -> bool
  {
    s => RegionStorable(limits, s)
  }

  /** max_mapped_bytes + max_file_size as the code adds them: in 64 bits. */
  function SizeLimit(limits: Limits): U64
  {
    (limits.maxMappedBytes + limits.maxFileSize) % TWO64
  }

  /** The snapshot keeps within everything the decoder checks. */
  ghost predicate Storable(limits: Limits, s: MemorySnapshot)
  {
    && s.version == 1 && s.mappedBytes <= limits.maxMappedBytes && |s.regions| <= limits.maxSegments
    && AllOk(StorableTest(limits), s.regions)
    && 8 + |Payload(s)| <= SizeLimit(limits)
  }

  /** When encode goes through: it tests neither the version nor the total size. */
  predicate Encodable(limits: Limits, s: MemorySnapshot)
  {
    && s.mappedBytes <= limits.maxMappedBytes && |s.regions| <= limits.maxSegments
    && forall i :: 0 <= i < |s.regions| ==>
         |s.regions[i].name| <= limits.maxStringBytes && |s.regions[i].bytes| <= limits.maxMappedBytes
  }

  // ----- encoding -----

  /** encode. */
  method Encode(limits: Limits, s: MemorySnapshot) returns (r: Result<seq<Byte>>)
    ensures r.Ok? <==> Encodable(limits, s)
    ensures r.Ok? ==> r.value == Container(s)
    ensures r.Err? ==> r.code == ResourceLimit
  {
    if |s.regions| > limits.maxSegments || s.mappedBytes > limits.maxMappedBytes { return Err(ResourceLimit); }
    var output := MAGIC + SnapshotHeader(s);
    ghost var start := output;
    for i := 0 to |s.regions|
      invariant output == start + EncodeList(EncodeRegion, s.regions, i)
      invariant forall j :: 0 <= j < i ==>
                  |s.regions[j].name| <= limits.maxStringBytes && |s.regions[j].bytes| <= limits.maxMappedBytes
    {
      var region := s.regions[i];
      if |region.name| > limits.maxStringBytes || |region.bytes| > limits.maxMappedBytes {
        return Err(ResourceLimit);
      }
      Associate(start, EncodeList(EncodeRegion, s.regions, i), EncodeRegion(region));
      output := output + EncodeRegion(region);
    }
    Associate(MAGIC, SnapshotHeader(s), EncodeList(EncodeRegion, s.regions, |s.regions|));
    var checksum := Crc32(output);
    return Ok(output + WordBytes(checksum));
  }

  // ----- one region -----

  ghost predicate FrontFields(d: seq<Byte>, p: nat, base: U64, size: U64, permissions: Byte, nameSize: U32)
  {
    && p + 21 <= |d|
    && IntAt(d, p, 8, base) && IntAt(d, p + 8, 8, size)
    && d[p + 16] == permissions && IntAt(d, p + 17, 4, nameSize)
  }

  ghost predicate BackFields(d: seq<Byte>, p: nat, checksum: U32, byteSize: U64)
  {
    p + 12 <= |d| && IntAt(d, p, 4, checksum) && IntAt(d, p + 4, 8, byteSize)
  }

  /** What the bytes of a region at p say. */
  ghost predicate RegionFields(d: seq<Byte>, p: nat, s: SnapshotRegion)
  {
    var n := |s.name|;
    && FrontFields(d, p, s.base, s.size, s.permissions, n % TWO32)
    && At(d, p + 21, s.name)
    && BackFields(d, p + 21 + n, s.checksum, |s.bytes|)
    && At(d, p + 33 + n, s.bytes)
  }

  lemma FrontMeansFields(d: seq<Byte>, p: nat, s: SnapshotRegion)
    ensures At(d, p, RegionFront(s)) <==> FrontFields(d, p, s.base, s.size, s.permissions, |s.name| % TWO32)
  {
    var tail := LittleEndian(|s.name| % TWO32, 4);
    AtConcat(d, p, LittleEndian(s.base, 8), LittleEndian(s.size, 8) + ([s.permissions] + tail));
    AtConcat(d, p + 8, LittleEndian(s.size, 8), [s.permissions] + tail);
    AtConcat(d, p + 16, [s.permissions], tail);
    AtOne(d, p + 16, s.permissions);
  }

  /** A region stands at p exactly when its fields do. */
  lemma RegionMeansFields(d: seq<Byte>, p: nat, s: SnapshotRegion)
    ensures At(d, p, EncodeRegion(s)) <==> RegionFields(d, p, s)
    ensures |EncodeRegion(s)| == 33 + |s.name| + |s.bytes|
  {
    var n := |s.name|;
    FrontMeansFields(d, p, s);
    AtConcat(d, p, RegionFront(s), s.name + (RegionBack(s) + s.bytes));
    AtConcat(d, p + 21, s.name, RegionBack(s) + s.bytes);
    AtConcat(d, p + 21 + n, RegionBack(s), s.bytes);
    AtConcat(d, p + 21 + n, LittleEndian(s.checksum, 4), LittleEndian(|s.bytes|, 8));
  }

  /** At most one storable region stands at a position. */
  lemma RegionUnique(limits: Limits, d: seq<Byte>, p: nat, a: SnapshotRegion, b: SnapshotRegion)
    requires At(d, p, EncodeRegion(a)) && At(d, p, EncodeRegion(b))
    requires RegionStorable(limits, a) && RegionStorable(limits, b)
    ensures a == b
  {
    RegionMeansFields(d, p, a);
    RegionMeansFields(d, p, b);
    U64Unique(d, p, a.base, b.base);
    U64Unique(d, p + 8, a.size, b.size);
    U32Unique(d, p + 17, |a.name|, |b.name|);
    AtUnique(d, p + 21, a.name, b.name);
    var q := p + 21 + |a.name|;
    U32Unique(d, q, a.checksum, b.checksum);
    U64Unique(d, q + 4, |a.bytes|, |b.bytes|);
    AtUnique(d, q + 12, a.bytes, b.bytes);
  }

  lemma RegionsUnambiguous(limits: Limits)
    ensures Unambiguous(EncodeRegion, StorableTest(limits))
  {
    forall d, p, a, b
      | StorableTest(limits)(a) && StorableTest(limits)(b)
        && At(d, p, EncodeRegion(a)) && At(d, p, EncodeRegion(b))
      ensures a == b
    {
      RegionUnique(limits, d, p, a, b);
    }
  }

  ghost predicate NoRegion(limits: Limits, d: seq<Byte>, p: nat)
  {
    NoItem(EncodeRegion, StorableTest(limits), d, p)
  }

  /** Nothing storable stands at p when the test on the first fields fails. */
  lemma BadFront(limits: Limits, d: seq<Byte>, p: nat, base: U64, size: U64, permissions: Byte, n: U32)
    requires p + 21 <= |d| ==> FrontFields(d, p, base, size, permissions, n)
                               && (n > limits.maxStringBytes || p + 21 + n > |d|)
    ensures NoRegion(limits, d, p)
  {
    forall s | RegionStorable(limits, s) ensures !At(d, p, EncodeRegion(s)) {
      RegionMeansFields(d, p, s);
      if RegionFields(d, p, s) { U32Unique(d, p + 17, |s.name|, n); }
    }
  }

  lemma BadBack(limits: Limits, d: seq<Byte>, p: nat, n: U32, checksum: U32, byteSize: U64)
    requires IntAt(d, p + 17, 4, n)
    requires p + 33 + n <= |d| ==> BackFields(d, p + 21 + n, checksum, byteSize)
                                   && (byteSize > limits.maxMappedBytes || p + 33 + n + byteSize > |d|)
    ensures NoRegion(limits, d, p)
  {
    forall s | RegionStorable(limits, s) ensures !At(d, p, EncodeRegion(s)) {
      RegionMeansFields(d, p, s);
      if RegionFields(d, p, s) {
        U32Unique(d, p + 17, |s.name|, n);
        U64Unique(d, p + 25 + n, |s.bytes|, byteSize);
      }
    }
  }

  method ReadFront(reader: ByteReader) returns (ok: bool, base: U64, size: U64, permissions: Byte, nameSize: U32)
    requires reader.Valid() && reader.order.Little?
    modifies reader
    ensures reader.Valid()
    ensures ok <==> old(reader.position) + 21 <= |reader.data|
    ensures ok ==> FrontFields(reader.data, old(reader.position), base, size, permissions, nameSize)
                   && reader.position == old(reader.position) + 21
  {
    base, size, permissions, nameSize := 0, 0, 0, 0;
    ok, base := reader.ReadFixed(8);
    if ok { ok, size := reader.ReadFixed(8); }
    if ok { ok, permissions := reader.ReadU8(); }
    if ok { ok, nameSize := reader.ReadU32(); }
  }

  method ReadBack(reader: ByteReader) returns (ok: bool, checksum: U32, byteSize: U64)
    requires reader.Valid() && reader.order.Little?
    modifies reader
    ensures reader.Valid()
    ensures ok <==> old(reader.position) + 12 <= |reader.data|
    ensures ok ==> BackFields(reader.data, old(reader.position), checksum, byteSize)
                   && reader.position == old(reader.position) + 12
  {
    byteSize := 0;
    ok, checksum := reader.ReadU32();
    if ok { ok, byteSize := reader.ReadFixed(8); }
  }

  /** The first half of a region: up to its name. */
  method ReadNamed(limits: Limits, reader: ByteReader)
    returns (ok: bool, base: U64, size: U64, permissions: Byte, name: Text)
    requires reader.Valid() && reader.order.Little?
    modifies reader
    ensures reader.Valid()
    ensures !ok ==> NoRegion(limits, reader.data, old(reader.position))
    ensures ok ==>
              && |name| <= limits.maxStringBytes && |name| < TWO32
              && FrontFields(reader.data, old(reader.position), base, size, permissions, |name|)
              && At(reader.data, old(reader.position) + 21, name)
              && reader.position == old(reader.position) + 21 + |name|
  {
    ghost var d, p := reader.data, reader.position;
    var nameSize;
    ok, base, size, permissions, nameSize := ReadFront(reader);
    name := [];
    if !ok || nameSize > limits.maxStringBytes || nameSize > reader.Remaining() {
      BadFront(limits, d, p, base, size, permissions, nameSize);
      ok := false;
      return;
    }
    ok, name := reader.ReadBytes(nameSize);
  }

  /** The second half: checksum and bytes of the region at p, whose name takes n bytes. */
  method ReadData(limits: Limits, reader: ByteReader, ghost p: nat, ghost n: U32)
    returns (ok: bool, checksum: U32, bytes: Blob)
    requires reader.Valid() && reader.order.Little?
    requires reader.position == p + 21 + n && IntAt(reader.data, p + 17, 4, n)
    modifies reader
    ensures reader.Valid()
    ensures !ok ==> NoRegion(limits, reader.data, p)
    ensures ok ==>
              && |bytes| <= limits.maxMappedBytes && BackFields(reader.data, p + 21 + n, checksum, |bytes|)
              && At(reader.data, p + 33 + n, bytes) && reader.position == p + 33 + n + |bytes|
  {
    var byteSize;
    ok, checksum, byteSize := ReadBack(reader);
    bytes := [];
    if !ok || byteSize > limits.maxMappedBytes || byteSize > reader.Remaining() {
      BadBack(limits, reader.data, p, n, checksum, byteSize);
      ok := false;
      return;
    }
    ok, bytes := reader.ReadBytes(byteSize);
  }

  /** The body of the decoding loop. */
  method DecodeRegion(limits: Limits, reader: ByteReader) returns (r: Result<SnapshotRegion>)
    requires reader.Valid() && reader.order.Little?
    modifies reader
    ensures reader.Valid()
    ensures r.Ok? ==> RegionStorable(limits, r.value)
    ensures r.Ok? ==> At(reader.data, old(reader.position), EncodeRegion(r.value))
    ensures r.Ok? ==> reader.position == old(reader.position) + |EncodeRegion(r.value)|
    ensures r.Err? ==> r.code == Truncated && NoRegion(limits, reader.data, old(reader.position))
  {
    ghost var d, p := reader.data, reader.position;
    var ok, base, size, permissions, name := ReadNamed(limits, reader);
    if !ok { return Err(Truncated); }
    var checksum, bytes;
    ok, checksum, bytes := ReadData(limits, reader, p, |name|);
    if !ok { return Err(Truncated); }
    var region := SnapshotRegion(base, size, permissions, name, checksum, bytes);
    RegionMeansFields(d, p, region);
    return Ok(region);
  }

  /** The decoding loop. */
  method DecodeRegions(limits: Limits, reader: ByteReader, count: nat) returns (r: Result<seq<SnapshotRegion>>)
    requires reader.Valid() && reader.order.Little?
    modifies reader
    ensures reader.Valid()
    ensures r.Ok? ==> |r.value| == count && AllOk(StorableTest(limits), r.value)
    ensures r.Ok? ==> At(reader.data, old(reader.position), EncodeList(EncodeRegion, r.value, count))
    ensures r.Ok? ==> reader.position == old(reader.position) + |EncodeList(EncodeRegion, r.value, count)|
    ensures r.Err? ==> r.code == Truncated
                       && NoList(EncodeRegion, StorableTest(limits), reader.data, old(reader.position), count)
  {
    ghost var d, p := reader.data, reader.position;
    var regions: seq<SnapshotRegion> := [];
    AtEmpty(d, p);
    for index := 0 to count
      invariant reader.Valid() && |regions| == index && AllOk(StorableTest(limits), regions)
      invariant At(d, p, EncodeList(EncodeRegion, regions, index))
      invariant reader.position == p + |EncodeList(EncodeRegion, regions, index)|
    {
      var one := DecodeRegion(limits, reader);
      if one.Err? {
        RegionsUnambiguous(limits);
        NoItemNoList(EncodeRegion, StorableTest(limits), d, p, regions, count);
        return Err(one.code);
      }
      OneMore(EncodeRegion, d, p, regions, one.value);
      regions := regions + [one.value];
    }
    return Ok(regions);
  }

  // ----- whole containers -----

  /** The three header fields, the regions behind them, and nothing else. */
  ghost predicate PayloadParts(d: seq<Byte>, s: MemorySnapshot)
  {
    && IntAt(d, 0, 4, s.version) && IntAt(d, 4, 8, s.mappedBytes) && IntAt(d, 12, 4, |s.regions| % TWO32)
    && At(d, 16, EncodeList(EncodeRegion, s.regions, |s.regions|))
    && |d| == 16 + |EncodeList(EncodeRegion, s.regions, |s.regions|)|
  }

  lemma PayloadMeans(d: seq<Byte>, s: MemorySnapshot)
    ensures d == Payload(s) <==> PayloadParts(d, s)
  {
    var count := LittleEndian(|s.regions| % TWO32, 4);
    AtConcat(d, 0, SnapshotHeader(s), EncodeList(EncodeRegion, s.regions, |s.regions|));
    AtConcat(d, 0, LittleEndian(s.version, 4), LittleEndian(s.mappedBytes, 8) + count);
    AtConcat(d, 4, LittleEndian(s.mappedBytes, 8), count);
    AtSelf(d);
    if At(d, 0, Payload(s)) && |d| == |Payload(s)| { AtUnique(d, 0, Payload(s), d); }
  }

  lemma ContainerMeans(data: seq<Byte>, s: MemorySnapshot)
    ensures |Container(s)| == 8 + |Payload(s)| >= 24
    ensures data == Container(s) <==> Framed(MAGIC, data) && Inner(data) == Payload(s)
  {
    WrapMeans(MAGIC, data, Payload(s));
  }

  ghost predicate NoSnapshot(limits: Limits, data: seq<Byte>)
  {
    forall s :: Storable(limits, s) ==> data != Container(s)
  }

  ghost predicate NoPayload(limits: Limits, d: seq<Byte>)
  {
    forall s :: Storable(limits, s) ==> !PayloadParts(d, s)
  }

  /** The header is acceptable and announces count regions. */
  ghost predicate HeaderStands(limits: Limits, d: seq<Byte>, mapped: U64, count: U32)
  {
    && IntAt(d, 0, 4, 1) && IntAt(d, 4, 8, mapped) && IntAt(d, 12, 4, count) && |d| >= 16
    && count <= limits.maxSegments && mapped <= limits.maxMappedBytes
  }

  /** Behind an acceptable header the announced regions do not all stand. */
  ghost predicate RegionsMissing(limits: Limits, d: seq<Byte>)
  {
    exists mapped: U64, count: U32 {:trigger HeaderStands(limits, d, mapped, count)} ::
      HeaderStands(limits, d, mapped, count) && NoList(EncodeRegion, StorableTest(limits), d, 16, count)
  }

  /** With the regions in place, none are missing. */
  lemma NotMissing(limits: Limits, d: seq<Byte>, count: U32, regions: seq<SnapshotRegion>)
    requires IntAt(d, 12, 4, count) && |regions| == count && AllOk(StorableTest(limits), regions)
    requires At(d, 16, EncodeList(EncodeRegion, regions, count))
    ensures !RegionsMissing(limits, d)
  {
    forall mapped: U64, other: U32 | HeaderStands(limits, d, mapped, other)
      ensures !NoList(EncodeRegion, StorableTest(limits), d, 16, other)
    {
      U32Unique(d, 12, count, other);
    }
  }

  lemma NoHeader(limits: Limits, d: seq<Byte>, version: U32, mapped: U64, count: U32)
    requires |d| >= 16 ==>
               && IntAt(d, 0, 4, version) && IntAt(d, 4, 8, mapped) && IntAt(d, 12, 4, count)
               && (version != 1 || count > limits.maxSegments || mapped > limits.maxMappedBytes)
    ensures !RegionsMissing(limits, d)
  {
    forall m: U64, n: U32 | HeaderStands(limits, d, m, n) ensures false {
      U32Unique(d, 0, 1, version);
      U64Unique(d, 4, m, mapped);
      U32Unique(d, 12, n, count);
    }
  }

  lemma HeaderFailed(limits: Limits, d: seq<Byte>, version: U32, mapped: U64, count: U32)
    requires |d| >= 16 ==>
               && IntAt(d, 0, 4, version) && IntAt(d, 4, 8, mapped) && IntAt(d, 12, 4, count)
               && (version != 1 || count > limits.maxSegments || mapped > limits.maxMappedBytes)
    ensures NoPayload(limits, d)
  {
    forall s | Storable(limits, s) ensures !PayloadParts(d, s) {
      if PayloadParts(d, s) {
        U32Unique(d, 0, 1, version);
        U64Unique(d, 4, s.mappedBytes, mapped);
        U32Unique(d, 12, |s.regions|, count);
      }
    }
  }

  lemma ListFailed(limits: Limits, d: seq<Byte>, count: U32)
    requires IntAt(d, 12, 4, count)
    requires NoList(EncodeRegion, StorableTest(limits), d, 16, count)
    ensures NoPayload(limits, d)
  {
    forall s | Storable(limits, s) ensures !PayloadParts(d, s) {
      if PayloadParts(d, s) { U32Unique(d, 12, |s.regions|, count); }
    }
  }

  lemma TrailingBytes(limits: Limits, d: seq<Byte>, count: U32, regions: seq<SnapshotRegion>)
    requires IntAt(d, 12, 4, count) && |regions| == count && AllOk(StorableTest(limits), regions)
    requires At(d, 16, EncodeList(EncodeRegion, regions, count))
    requires |d| > 16 + |EncodeList(EncodeRegion, regions, count)|
    ensures NoPayload(limits, d)
  {
    forall s | Storable(limits, s) ensures !PayloadParts(d, s) {
      NotWithTrailingBytes(limits, d, count, regions, s);
    }
  }

  lemma NotWithTrailingBytes(limits: Limits, d: seq<Byte>, count: U32, regions: seq<SnapshotRegion>, s: MemorySnapshot)
    requires IntAt(d, 12, 4, count) && |regions| == count && AllOk(StorableTest(limits), regions)
    requires At(d, 16, EncodeList(EncodeRegion, regions, count))
    requires |d| > 16 + |EncodeList(EncodeRegion, regions, count)| && Storable(limits, s)
    ensures !PayloadParts(d, s)
  {
    if PayloadParts(d, s) {
      RegionsUnambiguous(limits);
      U32Unique(d, 12, |s.regions|, count);
      SameLists(EncodeRegion, StorableTest(limits), d, 16, regions, s.regions);
    }
  }

  /** The reads in front of the decoding loop. */
  method ReadStart(limits: Limits, reader: ByteReader) returns (ok: bool, mapped: U64, count: U32)
    requires reader.Valid() && reader.order.Little? && reader.position == 0
    modifies reader
    ensures reader.Valid()
    ensures ok ==> HeaderStands(limits, reader.data, mapped, count) && reader.position == 16
    ensures !ok ==> NoPayload(limits, reader.data) && !RegionsMissing(limits, reader.data)
  {
    mapped, count := 0, 0;
    var version;
    ok, version := reader.ReadU32();
    if ok { ok, mapped := reader.ReadFixed(8); }
    if ok { ok, count := reader.ReadU32(); }
    if !ok || version != 1 || count > limits.maxSegments || mapped > limits.maxMappedBytes {
      HeaderFailed(limits, reader.data, version, mapped, count);
      NoHeader(limits, reader.data, version, mapped, count);
      ok := false;
    }
  }

  /** The part of decode that only sees what the reader covers. */
  method DecodeInner(limits: Limits, d: Blob) returns (r: Result<MemorySnapshot>)
    ensures r.Ok? ==>
              && PayloadParts(d, r.value) && r.value.version == 1
              && r.value.mappedBytes <= limits.maxMappedBytes && |r.value.regions| <= limits.maxSegments
              && AllOk(StorableTest(limits), r.value.regions)
    ensures r.Err? ==> NoPayload(limits, d)
    ensures r.Err? ==> r.code == if RegionsMissing(limits, d) then Truncated else InvalidHeader
  {
    var reader := new ByteReader(d, Little);
    var ok, mapped, count := ReadStart(limits, reader);
    if !ok { return Err(InvalidHeader); }
    var regions := DecodeRegions(limits, reader, count);
    if regions.Err? {
      ListFailed(limits, d, count);
      assert HeaderStands(limits, d, mapped, count);
      return Err(regions.code);
    }
    if reader.Remaining() > 0 {
      TrailingBytes(limits, d, count, regions.value);
      NotMissing(limits, d, count, regions.value);
      return Err(InvalidHeader);
    }
    return Ok(MemorySnapshot(1, mapped, regions.value));
  }

  /** decode: finds the snapshot a container was made from, and rejects only what no storable
      snapshot encodes to. */
  method Decode(limits: Limits, data: Blob) returns (r: Result<MemorySnapshot>)
    ensures r.Ok? ==> Storable(limits, r.value) && data == Container(r.value)
    ensures r.Err? ==> NoSnapshot(limits, data)
    ensures |data| < 24 || data[..4] != MAGIC || |data| > SizeLimit(limits) ==> r == Err(BadMagic)
    ensures 24 <= |data| <= SizeLimit(limits) && data[..4] == MAGIC && r.Err? ==>
              r.code == if Sealed(data) && RegionsMissing(limits, Inner(data)) then Truncated else InvalidHeader
  {
    if |data| < 24 || data[..4] != MAGIC || |data| > SizeLimit(limits) {
      UnframedNoSnapshot(limits, data);
      return Err(BadMagic);
    }
    var intact := TrailerMatches(data);
    if !intact {
      UnframedNoSnapshot(limits, data);
      return Err(InvalidHeader);
    }
    r := DecodeInner(limits, Inner(data));
    if r.Ok? {
      PayloadMeans(Inner(data), r.value);
      ContainerMeans(data, r.value);
    } else {
      NoPayloadNoSnapshot(limits, data);
    }
  }

  /** An encoded snapshot within the sum of the two limits decodes again exactly when that sum fits 64
      bits, or the snapshot is within what is left of it. */
  lemma DecodesAgainIff(limits: Limits, s: MemorySnapshot)
    requires Encodable(limits, s) && s.version == 1 && forall i :: 0 <= i < |s.regions| ==> |s.regions[i].name| < TWO32
    requires |Container(s)| <= limits.maxMappedBytes + limits.maxFileSize
    ensures Storable(limits, s) <==>
            || limits.maxMappedBytes + limits.maxFileSize < TWO64
            || |Container(s)| <= limits.maxMappedBytes + limits.maxFileSize - TWO64
  {
    ContainerMeans([], s);
    assert AllOk(StorableTest(limits), s.regions);
  }

  /** With these limits the sum wraps to zero: even the snapshot of empty memory is encoded, is within
      the sum, and is turned away. */
  lemma WrappedLimitRejects(limits: Limits)
    requires limits.maxMappedBytes == TWO64 - 1 && limits.maxFileSize == 1
    ensures var s := MemorySnapshot(1, 0, []);
            && Encodable(limits, s) && |Container(s)| <= limits.maxMappedBytes + limits.maxFileSize
            && NoSnapshot(limits, Container(s))
  {
    var s := MemorySnapshot(1, 0, []);
    ContainerMeans(Container(s), s);
    PayloadSize(s);
    UnframedNoSnapshot(limits, Container(s));
  }

  lemma PayloadSize(s: MemorySnapshot)
    requires s.regions == []
    ensures |Container(s)| == 24
  {
    ContainerMeans([], s);
    assert EncodeList(EncodeRegion, s.regions, 0) == [];
  }

  lemma UnframedNoSnapshot(limits: Limits, data: seq<Byte>)
    requires |data| < 24 || data[..4] != MAGIC || |data| > SizeLimit(limits) || !Sealed(data)
    ensures NoSnapshot(limits, data)
  {
    forall s | Storable(limits, s) ensures data != Container(s) { ContainerMeans(data, s); }
  }

  lemma NoPayloadNoSnapshot(limits: Limits, data: seq<Byte>)
    requires |data| >= 8 && NoPayload(limits, Inner(data))
    ensures NoSnapshot(limits, data)
  {
    forall s | Storable(limits, s) ensures data != Container(s) {
      ContainerMeans(data, s);
      PayloadMeans(Inner(data), s);
    }
  }

  // ----- what follows -----

  lemma PayloadInjective(limits: Limits, d: seq<Byte>, a: MemorySnapshot, b: MemorySnapshot)
    requires Storable(limits, a) && Storable(limits, b) && PayloadParts(d, a) && PayloadParts(d, b)
    ensures a == b
  {
    U64Unique(d, 4, a.mappedBytes, b.mappedBytes);
    U32Unique(d, 12, |a.regions|, |b.regions|);
    RegionsUnambiguous(limits);
    SameLists(EncodeRegion, StorableTest(limits), d, 16, a.regions, b.regions);
  }

  /** Two storable snapshots with one container are the same snapshot. */
  lemma ContainerInjective(limits: Limits, a: MemorySnapshot, b: MemorySnapshot)
    requires Storable(limits, a) && Storable(limits, b) && Container(a) == Container(b)
    ensures a == b
  {
    ContainerMeans(Container(a), a);
    ContainerMeans(Container(b), b);
    var d := Inner(Container(a));
    PayloadMeans(d, a);
    PayloadMeans(d, b);
    PayloadInjective(limits, d, a, b);
  }

  /** Whatever decode accepts, encode accepts too; by the contracts of both, it gives back the
      same bytes. */
  lemma StorableIsEncodable(limits: Limits, s: MemorySnapshot)
    requires Storable(limits, s)
    ensures Encodable(limits, s)
  {
    forall i | 0 <= i < |s.regions|
      ensures |s.regions[i].name| <= limits.maxStringBytes && |s.regions[i].bytes| <= limits.maxMappedBytes
    {
      assert StorableTest(limits)(s.regions[i]);
    }
  }

  /** No change of a container within four consecutive bytes leaves a container of any snapshot,
      so decode rejects every such change. */
  lemma CorruptionRejected(limits: Limits, s: MemorySnapshot, e: seq<Byte>, i: nat)
    requires DifferOnlyIn(Container(s), e, i) && Container(s) != e
    ensures NoSnapshot(limits, e) && |e| >= 4 && !Sealed(e)
  {
    forall other ensures |e| >= 4 && !Sealed(e) && e != Container(other) {
      ChangeUnwraps(MAGIC, Payload(s), e, i, Payload(other));
    }
    ChangeUnwraps(MAGIC, Payload(s), e, i, []);
  }

  /** Memory captured with its bytes survives the whole trip: when the container keeps within the
      decoder's size limit, decode finds the captured snapshot and restore rebuilds the memory. */
  lemma CaptureSurvivesTransport(limits: Limits, m: RegionMap, mapped: U64, s: MemorySnapshot)
    requires WellFormed(m) && NamesFit(limits, m) && IsCapture(m, mapped, true, s)
    requires forall k {:trigger m[k]} :: k in m ==> |m[k].name| < TWO32
    requires mapped == TotalSize(m) <= limits.maxMappedBytes && |m.Keys| <= limits.maxSegments
    requires |Container(s)| <= SizeLimit(limits)
    ensures Storable(limits, s) && Restorable(limits, s) && Rebuilt(s.regions, |s.regions|) == m
  {
    RestoreInvertsCapture(limits, m, mapped, true, s);
    ContainerMeans([], s);
    forall i | 0 <= i < |s.regions| ensures StorableTest(limits)(s.regions[i]) {
      assert SnapOf(m, s.regions[i], true);
      RegionWithinTotal(m, s.regions[i].base);
    }
  }

  lemma RegionWithinTotal(m: RegionMap, k: U64)
    requires WellFormed(m) && k in m
    ensures m[k].size <= TotalSize(m)
  {
    TotalWithout(m, k);
  }
}
