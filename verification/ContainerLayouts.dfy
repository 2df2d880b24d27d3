/** The two container formats, byte by byte. */
module ContainerLayouts {
  import opened Base
  import opened Containers
  import opened CrcRemainder
  import opened Cursors
  import opened Endian
  import opened PatchPlans
  import opened RecordLists
  import opened Snapshots
  import PatchCodec
  import SnapshotCodec

  /** n bytes at p hold v, the lowest first. */
  ghost predicate NumberAt(d: seq<Byte>, p: nat, n: nat, v: nat)
  {
    p + n <= |d| && forall i {:trigger DigitAt(d, p, v, i)} :: 0 <= i < n ==> DigitAt(d, p, v, i)
  }

  predicate DigitAt(d: seq<Byte>, p: nat, v: nat, i: nat)
    requires p + i < |d|
  {
    d[p + i] == v / Pow256(i) % 256
  }

  predicate BytesAt(d: seq<Byte>, p: nat, s: seq<Byte>)
  {
    p + |s| <= |d| && d[p..p + |s|] == s
  }

  lemma NumberMeans(d: seq<Byte>, p: nat, n: nat, v: nat)
    ensures IntAt(d, p, n, v) <==> NumberAt(d, p, n, v)
  {
    var s := LittleEndian(v, n);
    if p + n <= |d| {
      forall i | 0 <= i < n ensures Matches(d, p, s, i) <==> DigitAt(d, p, v, i) { LittleByte(v, n, i); }
    }
  }

  lemma BytesMean(d: seq<Byte>, p: nat, s: seq<Byte>)
    ensures At(d, p, s) <==> BytesAt(d, p, s)
  {
    if p + |s| <= |d| { AtSlice(d, p, s); }
  }

  // ----- patches -----

  /** The number of a kind of operation. */
  predicate KindNumber(kind: PatchOperationKind, b: Byte)
  {
    match kind
    case WriteBytes => b == 0
    case FillBytes => b == 1
    case WriteInteger => b == 2
    case CopyBytes => b == 3
    case AssertBytes => b == 4
  }

  /** The operation at p: forty bytes of header, and then its bytes. */
  ghost predicate OperationLayout(d: seq<Byte>, p: nat, op: PatchOperation)
  {
    && p + 40 <= |d| && KindNumber(op.kind, d[p])
    && NumberAt(d, p + 1, 8, op.address) && NumberAt(d, p + 9, 8, op.sourceAddress)
    && NumberAt(d, p + 17, 8, op.length) && NumberAt(d, p + 25, 8, op.integer)
    && d[p + 33] == op.width && d[p + 34] == op.fill && d[p + 35] == (if op.byteOrder == Big then 1 else 0)
    && NumberAt(d, p + 36, 4, |op.bytes| % TWO32) && BytesAt(d, p + 40, op.bytes)
  }

  lemma OperationMeans(d: seq<Byte>, p: nat, op: PatchOperation)
    ensures At(d, p, PatchCodec.EncodeOperation(op)) <==> OperationLayout(d, p, op)
  {
    PatchCodec.OperationMeansFields(d, p, op);
    NumberMeans(d, p + 1, 8, op.address);
    NumberMeans(d, p + 9, 8, op.sourceAddress);
    NumberMeans(d, p + 17, 8, op.length);
    NumberMeans(d, p + 25, 8, op.integer);
    NumberMeans(d, p + 36, 4, |op.bytes| % TWO32);
    BytesMean(d, p + 40, op.bytes);
  }

  /** The size of the first n operations. */
  ghost function OperationsSize(ops: seq<PatchOperation>, n: nat): nat
    requires n <= |ops|
  {
    if n == 0 then 0 else OperationsSize(ops, n - 1) + 40 + |ops[n - 1].bytes|
  }

  lemma {:induction false} OperationsSizeMeans(ops: seq<PatchOperation>, n: nat)
    requires n <= |ops|
    ensures |EncodeList(PatchCodec.EncodeOperation, ops, n)| == OperationsSize(ops, n)
  {
    if n > 0 {
      OperationsSizeMeans(ops, n - 1);
      OperationSizeMeans(ops[n - 1]);
    }
  }

  lemma OperationSizeMeans(op: PatchOperation)
    ensures |PatchCodec.EncodeOperation(op)| == 40 + |op.bytes|
  {
  }

  /** Operation i, behind those before it, where the first one is at p. */
  ghost predicate OperationAt(d: seq<Byte>, p: nat, ops: seq<PatchOperation>, i: nat)
    requires i < |ops|
  {
    OperationLayout(d, p + OperationsSize(ops, i), ops[i])
  }

  /** The payload: version one, the name behind its size, checksum and total, and the operations behind their
      number. */
  ghost predicate PlanLayout(d: seq<Byte>, plan: PatchPlan)
  {
    var n, ops := |plan.name|, plan.operations;
    && NumberAt(d, 0, 4, 1) && NumberAt(d, 4, 4, n % TWO32) && BytesAt(d, 8, plan.name)
    && NumberAt(d, 8 + n, 4, plan.expectedChecksum) && NumberAt(d, 12 + n, 8, plan.bytesWritten)
    && NumberAt(d, 20 + n, 4, |ops| % TWO32)
    && (forall i {:trigger OperationAt(d, 24 + n, ops, i)} :: 0 <= i < |ops| ==> OperationAt(d, 24 + n, ops, i))
    && |d| == 24 + n + OperationsSize(ops, |ops|)
  }

  lemma PlanFieldsMean(d: seq<Byte>, plan: PatchPlan)
    ensures var n := |plan.name|;
            PatchCodec.PlanFields(d, plan) <==>
              && NumberAt(d, 0, 4, 1) && NumberAt(d, 4, 4, n % TWO32) && BytesAt(d, 8, plan.name)
              && NumberAt(d, 8 + n, 4, plan.expectedChecksum) && NumberAt(d, 12 + n, 8, plan.bytesWritten)
              && NumberAt(d, 20 + n, 4, |plan.operations| % TWO32)
  {
    var n := |plan.name|;
    NumberMeans(d, 0, 4, 1);
    NumberMeans(d, 4, 4, n % TWO32);
    BytesMean(d, 8, plan.name);
    NumberMeans(d, 8 + n, 4, plan.expectedChecksum);
    NumberMeans(d, 12 + n, 8, plan.bytesWritten);
    NumberMeans(d, 20 + n, 4, |plan.operations| % TWO32);
  }

  lemma OperationsMean(d: seq<Byte>, p: nat, ops: seq<PatchOperation>)
    requires p <= |d|
    ensures At(d, p, PatchCodec.EncodeOperations(ops)) <==>
            forall i {:trigger OperationAt(d, p, ops, i)} :: 0 <= i < |ops| ==> OperationAt(d, p, ops, i)
  {
    ListMeans(PatchCodec.EncodeOperation, d, p, ops, |ops|);
    forall i | 0 <= i < |ops|
      ensures RecordAt(PatchCodec.EncodeOperation, d, p, ops, i) <==> OperationAt(d, p, ops, i)
    {
      OperationsSizeMeans(ops, i);
      OperationMeans(d, p + OperationsSize(ops, i), ops[i]);
    }
  }

  /** A payload between its magic number and the remainder that makes up its trailer. */
  ghost predicate FrameLayout(data: seq<Byte>, magic: string)
  {
    && |data| >= 8 && |magic| == 4 && (forall i {:trigger data[i]} :: 0 <= i < 4 ==> data[i] == magic[i] as int)
    && Divided(data[..|data| - 4], data[|data| - 4..])
  }

  lemma FrameMeans(data: seq<Byte>, bytes: seq<Byte>, magic: string)
    requires |magic| == |bytes| == 4 && forall i :: 0 <= i < 4 ==> bytes[i] == magic[i] as int
    ensures Framed(bytes, data) <==> FrameLayout(data, magic)
  {
    if |data| >= 8 {
      SealedMeansDivided(data);
      if FrameLayout(data, magic) { assert data[..4] == bytes; }
      if Framed(bytes, data) {
        forall i | 0 <= i < 4 ensures data[i] == magic[i] as int { assert data[..4][i] == bytes[i]; }
      }
    }
  }

  /** The container of a patch. */
  lemma PatchContainerMeans(data: seq<Byte>, plan: PatchPlan)
    ensures data == PatchCodec.Container(plan) <==>
            FrameLayout(data, "BFPT") && PlanLayout(data[4..|data| - 4], plan)
  {
    PatchCodec.ContainerMeans(data, plan);
    FrameMeans(data, PatchCodec.MAGIC, "BFPT");
    if |data| >= 8 {
      var d := Inner(data);
      PatchCodec.PayloadMeans(d, plan);
      PlanPartsMean(d, plan);
    }
  }

  lemma PlanPartsMean(d: seq<Byte>, plan: PatchPlan)
    ensures PatchCodec.PayloadParts(d, plan) <==> PlanLayout(d, plan)
  {
    PlanFieldsMean(d, plan);
    OperationsSizeMeans(plan.operations, |plan.operations|);
    if 24 + |plan.name| <= |d| { OperationsMean(d, 24 + |plan.name|, plan.operations); }
  }

  // ----- snapshots -----

  /** The region at p: base, size, permissions, its name behind its size, its checksum, and its bytes behind
      theirs. */
  ghost predicate RegionLayout(d: seq<Byte>, p: nat, s: SnapshotRegion)
  {
    var n := |s.name|;
    && p + 33 + n <= |d|
    && NumberAt(d, p, 8, s.base) && NumberAt(d, p + 8, 8, s.size) && d[p + 16] == s.permissions
    && NumberAt(d, p + 17, 4, n % TWO32) && BytesAt(d, p + 21, s.name)
    && NumberAt(d, p + 21 + n, 4, s.checksum) && NumberAt(d, p + 25 + n, 8, |s.bytes|)
    && BytesAt(d, p + 33 + n, s.bytes)
  }

  lemma RegionMeans(d: seq<Byte>, p: nat, s: SnapshotRegion)
    ensures At(d, p, SnapshotCodec.EncodeRegion(s)) <==> RegionLayout(d, p, s)
  {
    var n := |s.name|;
    SnapshotCodec.RegionMeansFields(d, p, s);
    NumberMeans(d, p, 8, s.base);
    NumberMeans(d, p + 8, 8, s.size);
    NumberMeans(d, p + 17, 4, n % TWO32);
    BytesMean(d, p + 21, s.name);
    NumberMeans(d, p + 21 + n, 4, s.checksum);
    NumberMeans(d, p + 25 + n, 8, |s.bytes|);
    BytesMean(d, p + 33 + n, s.bytes);
  }

  ghost function RegionsSize(regions: seq<SnapshotRegion>, n: nat): nat
    requires n <= |regions|
  {
    if n == 0 then 0 else RegionsSize(regions, n - 1) + 33 + |regions[n - 1].name| + |regions[n - 1].bytes|
  }

  lemma {:induction false} RegionsSizeMeans(regions: seq<SnapshotRegion>, n: nat)
    requires n <= |regions|
    ensures |EncodeList(SnapshotCodec.EncodeRegion, regions, n)| == RegionsSize(regions, n)
  {
    if n > 0 {
      RegionsSizeMeans(regions, n - 1);
      RegionSizeMeans(regions[n - 1]);
    }
  }

  lemma RegionSizeMeans(s: SnapshotRegion)
    ensures |SnapshotCodec.EncodeRegion(s)| == 33 + |s.name| + |s.bytes|
  {
  }

  /** Region i, behind those before it, where the first one is at p. */
  ghost predicate RegionAt(d: seq<Byte>, p: nat, regions: seq<SnapshotRegion>, i: nat)
    requires i < |regions|
  {
    RegionLayout(d, p + RegionsSize(regions, i), regions[i])
  }

  /** The payload: version and total, and the regions behind their number. */
  ghost predicate SnapshotLayout(d: seq<Byte>, s: MemorySnapshot)
  {
    && NumberAt(d, 0, 4, s.version) && NumberAt(d, 4, 8, s.mappedBytes) && NumberAt(d, 12, 4, |s.regions| % TWO32)
    && (forall i {:trigger RegionAt(d, 16, s.regions, i)} :: 0 <= i < |s.regions| ==> RegionAt(d, 16, s.regions, i))
    && |d| == 16 + RegionsSize(s.regions, |s.regions|)
  }

  lemma OneRegionMeans(d: seq<Byte>, p: nat, regions: seq<SnapshotRegion>, i: nat)
    requires i < |regions|
    ensures RecordAt(SnapshotCodec.EncodeRegion, d, p, regions, i) <==> RegionAt(d, p, regions, i)
  {
    RegionsSizeMeans(regions, i);
    RegionMeans(d, p + RegionsSize(regions, i), regions[i]);
  }

  lemma RegionsMean(d: seq<Byte>, p: nat, regions: seq<SnapshotRegion>)
    requires p <= |d|
    ensures At(d, p, EncodeList(SnapshotCodec.EncodeRegion, regions, |regions|)) <==>
            forall i {:trigger RegionAt(d, p, regions, i)} :: 0 <= i < |regions| ==> RegionAt(d, p, regions, i)
  {
    ListMeans(SnapshotCodec.EncodeRegion, d, p, regions, |regions|);
    forall i | 0 <= i < |regions|
      ensures RecordAt(SnapshotCodec.EncodeRegion, d, p, regions, i) <==> RegionAt(d, p, regions, i)
    {
      OneRegionMeans(d, p, regions, i);
    }
  }

  lemma SnapshotPartsMean(d: seq<Byte>, s: MemorySnapshot)
    ensures SnapshotCodec.PayloadParts(d, s) <==> SnapshotLayout(d, s)
  {
    NumberMeans(d, 0, 4, s.version);
    NumberMeans(d, 4, 8, s.mappedBytes);
    NumberMeans(d, 12, 4, |s.regions| % TWO32);
    RegionsSizeMeans(s.regions, |s.regions|);
    if 16 <= |d| { RegionsMean(d, 16, s.regions); }
  }

  /** The container of a snapshot. */
  lemma SnapshotContainerMeans(data: seq<Byte>, s: MemorySnapshot)
    ensures data == SnapshotCodec.Container(s) <==>
            FrameLayout(data, "BFSN") && SnapshotLayout(data[4..|data| - 4], s)
  {
    SnapshotCodec.ContainerMeans(data, s);
    FrameMeans(data, SnapshotCodec.MAGIC, "BFSN");
    if |data| >= 8 {
      SnapshotCodec.PayloadMeans(Inner(data), s);
      SnapshotPartsMean(Inner(data), s);
    }
  }
}
