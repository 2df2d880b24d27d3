/** What a patch leaves in memory, byte by byte: the last operation that covers a byte decides it. */
module PatchEffects {
  import opened AddressSpaces
  import opened Base
  import opened Endian
  import opened PatchEngine
  import opened PatchPlans
  import opened Regions

  /** Address a lies among the bytes that the operation writes. */
  predicate Covers(op: PatchOperation, a: int)
  {
    match op.kind
    case WriteBytes => op.address <= a < op.address + |op.bytes|
    case FillBytes | CopyBytes => op.address <= a < op.address + op.length
    case WriteInteger => op.address <= a < op.address + op.width
    case AssertBytes => false
  }

  /** The byte at a after the first n operations, as seen from a: the last of them that covers it wrote
      it, a copy from what was at its source before. */
  ghost function ByteAfter(f: FlatMemory, ops: seq<PatchOperation>, n: nat, a: int): Byte
    requires n <= |ops|
  {
    if n == 0 then if a in f then f[a] else 0
    else
      var op := ops[n - 1];
      if !Covers(op, a) then ByteAfter(f, ops, n - 1, a)
      else
        var i := a - op.address;
        match op.kind
        case WriteBytes => op.bytes[i]
        case FillBytes => op.fill
        case WriteInteger => IntegerByte(op.integer, op.width, i, op.byteOrder)
        case CopyBytes => ByteAfter(f, ops, n - 1, op.sourceAddress + i)
        case AssertBytes => 0
  }

  /** An assertion at position n finds its bytes. */
  ghost predicate AssertionHolds(f: FlatMemory, ops: seq<PatchOperation>, n: nat)
    requires n < |ops|
  {
    ops[n].kind.AssertBytes? ==>
      forall i {:trigger ops[n].bytes[i]} :: 0 <= i < |ops[n].bytes| ==>
        ByteAfter(f, ops, n, ops[n].address + i) == ops[n].bytes[i]
  }

  // ----- the fold over flat memory, byte by byte -----

  /** All that the operation reads is mapped in f. */
  ghost predicate Sourced(f: FlatMemory, op: PatchOperation)
  {
    && SizeOk(op)
    && (op.kind.CopyBytes? ==>
          forall a {:trigger InRange(a, op.sourceAddress, op.length)} :: InRange(a, op.sourceAddress, op.length) ==>
            a in f)
    && (op.kind.AssertBytes? ==>
          forall a {:trigger InRange(a, op.address, |op.bytes|)} :: InRange(a, op.address, |op.bytes|) ==> a in f)
  }

  /** Memory g is what the first n operations leave of f. */
  ghost predicate Left(f: FlatMemory, ops: seq<PatchOperation>, n: nat, g: FlatMemory)
    requires n <= |ops|
  {
    forall a: int {:trigger a in g} {:trigger ByteAfter(f, ops, n, a)} ::
      (a in g <==> a in f) && (a in f ==> g[a] == ByteAfter(f, ops, n, a))
  }

  lemma PayloadByte(f: FlatMemory, ops: seq<PatchOperation>, n: nat, g: FlatMemory, a: int)
    requires n < |ops| && Sourced(f, ops[n]) && Left(f, ops, n, g) && !ops[n].kind.AssertBytes?
    ensures Covers(ops[n], a) <==> InRange(a, ops[n].address, |FlatPayload(g, ops[n])|)
    ensures Covers(ops[n], a) ==> FlatPayload(g, ops[n])[a - ops[n].address] == ByteAfter(f, ops, n + 1, a)
  {
    var op := ops[n];
    if Covers(op, a) {
      var i := a - op.address;
      match op.kind {
        case WriteBytes =>
        case FillBytes =>
        case WriteInteger => EncodedByte(op.integer, op.width, i, op.byteOrder);
        case CopyBytes => assert InRange(op.sourceAddress + i, op.sourceAddress, op.length);
        case AssertBytes =>
      }
    }
  }

  lemma AssertionMeans(f: FlatMemory, ops: seq<PatchOperation>, n: nat, g: FlatMemory)
    requires n < |ops| && Sourced(f, ops[n]) && Left(f, ops, n, g) && ops[n].kind.AssertBytes?
    ensures Fetch(g, ops[n].address, |ops[n].bytes|) == ops[n].bytes <==> AssertionHolds(f, ops, n)
  {
    var op := ops[n];
    var found := Fetch(g, op.address, |op.bytes|);
    forall i | 0 <= i < |op.bytes| ensures found[i] == ByteAfter(f, ops, n, op.address + i) {
      assert InRange(op.address + i, op.address, |op.bytes|);
    }
    if AssertionHolds(f, ops, n) { assert forall i :: 0 <= i < |op.bytes| ==> found[i] == op.bytes[i]; }
  }

  lemma StepLeaves(f: FlatMemory, ops: seq<PatchOperation>, n: nat, g: FlatMemory)
    requires n < |ops| && Sourced(f, ops[n]) && Left(f, ops, n, g)
    ensures FlatStep(g, ops[n]).Some? <==> AssertionHolds(f, ops, n)
    ensures FlatStep(g, ops[n]).Some? ==> Left(f, ops, n + 1, FlatStep(g, ops[n]).value)
  {
    if ops[n].kind.AssertBytes? {
      AssertionMeans(f, ops, n, g);
    } else {
      forall a: int ensures Covers(ops[n], a) <==> InRange(a, ops[n].address, |FlatPayload(g, ops[n])|)
                    ensures Covers(ops[n], a) ==>
                              FlatPayload(g, ops[n])[a - ops[n].address] == ByteAfter(f, ops, n + 1, a)
      {
        PayloadByte(f, ops, n, g, a);
      }
    }
  }

  lemma {:induction false} RunLeaves(f: FlatMemory, ops: seq<PatchOperation>, n: nat, g: FlatMemory)
    requires n <= |ops| && Left(f, ops, n, g)
    requires forall j {:trigger Sourced(f, ops[j])} :: n <= j < |ops| ==> Sourced(f, ops[j])
    ensures FlatRun(g, ops, n).Some? <==>
            forall j {:trigger AssertionHolds(f, ops, j)} :: n <= j < |ops| ==> AssertionHolds(f, ops, j)
    ensures FlatRun(g, ops, n).Some? ==> Left(f, ops, |ops|, FlatRun(g, ops, n).value)
    decreases |ops| - n
  {
    if n < |ops| {
      assert Sourced(f, ops[n]);
      StepLeaves(f, ops, n, g);
      if FlatStep(g, ops[n]).Some? { RunLeaves(f, ops, n + 1, FlatStep(g, ops[n]).value); }
    }
  }

  // ----- which operations fit, from their fields -----

  /** The operation has this size, and it is one that its kind allows. */
  predicate HasSize(op: PatchOperation, size: nat)
  {
    && size > 0
    && match op.kind
       case WriteBytes | AssertBytes => size == |op.bytes| && (op.length == 0 || op.length == size)
       case FillBytes | CopyBytes => size == op.length
       case WriteInteger => size == op.width && (size == 1 || size == 2 || size == 4 || size == 8)
  }

  /** The operation has a size, one region contains its range, and one contains its source. */
  ghost predicate HasPlace(op: PatchOperation, m: RegionMap)
  {
    exists size :: HasPlaceOf(op, m, size)
  }

  ghost predicate HasPlaceOf(op: PatchOperation, m: RegionMap, size: nat)
  {
    && HasSize(op, size) && op.address + size < TWO64 && InOneRegion(m, op.address, size)
    && (op.kind.CopyBytes? ==> op.sourceAddress + size < TWO64 && InOneRegion(m, op.sourceAddress, size))
  }

  lemma SizeMeans(op: PatchOperation, size: nat)
    ensures HasSize(op, size) <==> SizeOk(op) && OperationSize(op) == Some(size)
  {
  }

  lemma FitsMeansPlace(op: PatchOperation, m: RegionMap)
    requires WellFormed(m)
    ensures OperationFits(op, m) <==> HasPlace(op, m)
  {
    if SizeOk(op) {
      var size := OperationSize(op).value;
      SizeMeans(op, size);
      CoveringMeans(m, op.address, size);
      if op.kind.CopyBytes? { CoveringMeans(m, op.sourceAddress, size); }
      if OperationFits(op, m) { assert HasPlaceOf(op, m, size); }
    }
    if HasPlace(op, m) {
      var size :| HasPlaceOf(op, m, size);
      SizeMeans(op, size);
    }
  }

  /** The first defect of an operation, in the order in which validate looks for them. */
  lemma VerdictMeansPlace(op: PatchOperation, m: RegionMap)
    requires WellFormed(m)
    ensures OperationVerdict(op, m).Done? <==> HasPlace(op, m)
    ensures OperationVerdict(op, m) == Failed(InvalidRelocation) <==> forall size: nat :: !HasSize(op, size)
    ensures forall size: nat {:trigger HasSize(op, size)} :: HasSize(op, size) ==>
              && (OperationVerdict(op, m) == Failed(AddressOverflow) <==>
                    || op.address + size >= TWO64
                    || (InOneRegion(m, op.address, size) && op.kind.CopyBytes? && op.sourceAddress + size >= TWO64))
              && (OperationVerdict(op, m) == Failed(MappingMissing) <==>
                    && op.address + size < TWO64
                    && (|| !InOneRegion(m, op.address, size)
                        || (&& op.kind.CopyBytes? && op.sourceAddress + size < TWO64
                            && !InOneRegion(m, op.sourceAddress, size))))
  {
    VerdictMeansFits(op, m);
    FitsMeansPlace(op, m);
    if OperationSize(op).Some? { SizeMeans(op, OperationSize(op).value); }
    forall size: nat | HasSize(op, size) ensures OperationSize(op) == Some(size) { SizeMeans(op, size); }
    if SizeOk(op) {
      CoveringMeans(m, op.address, OperationSize(op).value);
      CoveringMeans(m, op.sourceAddress, OperationSize(op).value);
    }
  }

  /** The operation may read its own range, and a copy its source. */
  ghost predicate MayRead(op: PatchOperation, m: RegionMap)
  {
    forall size: nat {:trigger HasSize(op, size)} :: HasSize(op, size) ==>
      AllowedIn(m, op.address, size, 0) && (op.kind.CopyBytes? ==> AllowedIn(m, op.sourceAddress, size, 0))
  }

  lemma ReadableMeans(op: PatchOperation, m: RegionMap)
    requires WellFormed(m) && OperationFits(op, m)
    ensures Readable(m, op) <==> MayRead(op, m)
  {
    var size := OperationSize(op).value;
    assert PERMISSION_READ == Pow2(0);
    SizeMeans(op, size);
    AccessMeans(m, op.address, size, PERMISSION_READ, 0);
    if op.kind.CopyBytes? { AccessMeans(m, op.sourceAddress, size, PERMISSION_READ, 0); }
    forall n: nat | HasSize(op, n) ensures n == size { SizeMeans(op, n); }
  }

  /** How many bytes an operation writes: as many as it covers. */
  lemma WrittenMeans(op: PatchOperation, a: int)
    requires SizeOk(op)
    ensures Covers(op, a) <==> InRange(a, op.address, Written(op))
  {
  }

  lemma FitsAreSourced(op: PatchOperation, m: RegionMap)
    requires WellFormed(m) && OperationFits(op, m)
    ensures Sourced(Flat(m), op)
  {
    if op.kind.CopyBytes? { ReadIsFetch(m, op.sourceAddress, op.length); }
    if op.kind.AssertBytes? { ReadIsFetch(m, op.address, |op.bytes|); }
  }

  // ----- the whole patch -----

  /** A patch is acceptable to memory m: its operations have a place and may read, its totals are within
      the limits and as declared, and memory is as expected. */
  ghost predicate Acceptable(limits: Limits, plan: PatchPlan, m: RegionMap)
  {
    var ops := plan.operations;
    && |ops| <= limits.maxRelocations
    && (forall j {:trigger HasPlace(ops[j], m)} :: 0 <= j < |ops| ==> HasPlace(ops[j], m) && MayRead(ops[j], m))
    && TotalWritten(ops, |ops|) <= limits.maxMappedBytes
    && (plan.bytesWritten == 0 || plan.bytesWritten == TotalWritten(ops, |ops|))
    && (plan.expectedChecksum == 0 || plan.expectedChecksum == MemoryChecksum(m))
  }

  lemma AcceptableMeans(limits: Limits, plan: PatchPlan, m: RegionMap)
    requires WellFormed(m)
    ensures Acceptable(limits, plan, m) <==>
            && PlanFits(limits, plan, m)
            && (plan.expectedChecksum == 0 || plan.expectedChecksum == MemoryChecksum(m))
            && AllReadable(m, plan.operations, 0)
  {
    var ops := plan.operations;
    forall j | 0 <= j < |ops| ensures OperationFits(ops[j], m) <==> HasPlace(ops[j], m)
                              ensures OperationFits(ops[j], m) ==> (Readable(m, ops[j]) <==> MayRead(ops[j], m))
    {
      FitsMeansPlace(ops[j], m);
      if OperationFits(ops[j], m) { ReadableMeans(ops[j], m); }
    }
  }

  /** apply, byte by byte: it succeeds exactly when the patch is acceptable and every assertion finds what
      the operations in front of it left, and then every byte is as the last operation left it. */
  lemma ApplyByBytes(limits: Limits, plan: PatchPlan, before: RegionMap, r: Result<PatchResult>, after: RegionMap)
    requires WellFormed(before) && Outcome(limits, plan, before, r, after)
    ensures r.Ok? <==>
            && Acceptable(limits, plan, before)
            && forall j {:trigger AssertionHolds(Flat(before), plan.operations, j)} ::
                 0 <= j < |plan.operations| ==> AssertionHolds(Flat(before), plan.operations, j)
    ensures r.Ok? ==> WellFormed(after) && Left(Flat(before), plan.operations, |plan.operations|, Flat(after))
  {
    ApplyIsFlatRun(limits, plan, before, r, after);
    AcceptableMeans(limits, plan, before);
    var ops, f := plan.operations, Flat(before);
    if PlanFits(limits, plan, before) {
      forall j | 0 <= j < |ops| ensures Sourced(f, ops[j]) {
        assert OperationFits(ops[j], before);
        FitsAreSourced(ops[j], before);
      }
      RunLeaves(f, ops, 0, f);
    }
  }

  lemma {:induction false} StaysAfter(f: FlatMemory, ops: seq<PatchOperation>, j: nat, n: nat, a: int)
    requires j <= n <= |ops| && forall i {:trigger Covers(ops[i], a)} :: j <= i < n ==> !Covers(ops[i], a)
    ensures ByteAfter(f, ops, n, a) == ByteAfter(f, ops, j, a)
  {
    if j < n {
      assert !Covers(ops[n - 1], a);
      StaysAfter(f, ops, j, n - 1, a);
    }
  }

  /** What operation op puts at address a, when before(a) is the byte there in front of it. */
  ghost function PutBy(op: PatchOperation, before: int -> Byte, a: int): Byte
    requires Covers(op, a)
  {
    var i := a - op.address;
    match op.kind
    case WriteBytes => op.bytes[i]
    case FillBytes => op.fill
    case WriteInteger =>
      op.integer / Pow256(if op.byteOrder.Little? then i else op.width - 1 - i) % 256
    case CopyBytes => before(op.sourceAddress + i)
    case AssertBytes => 0
  }

  lemma LastByte(f: FlatMemory, ops: seq<PatchOperation>, j: nat, a: int)
    requires j < |ops| && Covers(ops[j], a)
    requires forall i {:trigger Covers(ops[i], a)} :: j < i < |ops| ==> !Covers(ops[i], a)
    ensures ByteAfter(f, ops, |ops|, a) == PutBy(ops[j], x => ByteAfter(f, ops, j, x), a)
  {
    StaysAfter(f, ops, j + 1, |ops|, a);
  }

  /** So a byte that operation j wrote, and no later one, holds what that operation puts there. */
  lemma LastWriteStands(limits: Limits, plan: PatchPlan, before: RegionMap, r: Result<PatchResult>,
                        after: RegionMap, j: nat, a: int)
    requires WellFormed(before) && Outcome(limits, plan, before, r, after) && r.Ok?
    requires j < |plan.operations| && Covers(plan.operations[j], a) && a in Flat(before)
    requires forall i {:trigger Covers(plan.operations[i], a)} :: j < i < |plan.operations| ==>
               !Covers(plan.operations[i], a)
    ensures WellFormed(after) && a in Flat(after)
    ensures Flat(after)[a] ==
            PutBy(plan.operations[j], x => ByteAfter(Flat(before), plan.operations, j, x), a)
  {
    ApplyByBytes(limits, plan, before, r, after);
    LastByte(Flat(before), plan.operations, j, a);
    assert a in Flat(after) <==> a in Flat(before);
  }
}
