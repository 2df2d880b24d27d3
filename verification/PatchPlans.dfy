/** Patch plans of src/patch_engine.cc and what they mean. */
module PatchPlans {
  import opened Base
  import opened Endian
  import opened Regions
  import opened AddressSpaces

  datatype PatchOperationKind = WriteBytes | FillBytes | WriteInteger | CopyBytes | AssertBytes

  datatype PatchOperation = PatchOperation(
    kind: PatchOperationKind, address: U64, sourceAddress: U64, length: U64, integer: U64,
    width: Byte, fill: Byte, byteOrder: ByteOrder, bytes: Blob)

  datatype PatchPlan = PatchPlan(
    name: Text, expectedChecksum: U32, operations: seq<PatchOperation>, bytesWritten: U64)

  datatype PatchResult = PatchResult(operationsApplied: nat, bytesWritten: nat, resultingChecksum: U32)

  /** operation_size. */
  function OperationSize(op: PatchOperation): Option<U64>
  {
    match op.kind
    case WriteBytes | AssertBytes => if op.length == 0 || op.length == |op.bytes| then Some(|op.bytes|) else None
    case FillBytes | CopyBytes => Some(op.length)
    case WriteInteger => if IntegerWidth(op.width) then Some(op.width) else None
  }

  function Filled(n: nat, b: Byte): (r: seq<Byte>)
    ensures |r| == n
  {
    seq(n, i => b)
  }

  // ----- validation -----

  predicate SizeOk(op: PatchOperation)
  {
    OperationSize(op).Some? && OperationSize(op).value > 0
  }

  /** What validate says about one operation before it looks at the running total. */
  function OperationVerdict(op: PatchOperation, m: RegionMap): Status
  {
    if !SizeOk(op) then Failed(InvalidRelocation)
    else
      var size := OperationSize(op).value;
      if CheckedAdd(op.address, size).None? then Failed(AddressOverflow)
      else if Covering(m, op.address, size).None? then Failed(MappingMissing)
      else if op.kind.CopyBytes? && CheckedAdd(op.sourceAddress, size).None? then Failed(AddressOverflow)
      else if op.kind.CopyBytes? && Covering(m, op.sourceAddress, size).None? then Failed(MappingMissing)
      else Done
  }

  /** How many bytes the operation writes. */
  function Written(op: PatchOperation): U64
  {
    if op.kind.AssertBytes? || OperationSize(op).None? then 0 else OperationSize(op).value
  }

  /** How many bytes the first n operations write. */
  function TotalWritten(ops: seq<PatchOperation>, n: nat): nat
    requires n <= |ops|
  {
    if n == 0 then 0 else TotalWritten(ops, n - 1) + Written(ops[n - 1])
  }

  /** validate from operation i on: the first failure in order, or Done. */
  function ValidateFrom(limits: Limits, ops: seq<PatchOperation>, m: RegionMap, i: nat): Status
    requires i <= |ops|
    decreases |ops| - i
  {
    if i == |ops| then Done
    else if OperationVerdict(ops[i], m).Failed? then OperationVerdict(ops[i], m)
    else if !ops[i].kind.AssertBytes? && TotalWritten(ops, i + 1) > limits.maxMappedBytes then Failed(ResourceLimit)
    else ValidateFrom(limits, ops, m, i + 1)
  }

  function Validated(limits: Limits, plan: PatchPlan, m: RegionMap): Status
  {
    if |plan.operations| > limits.maxRelocations then Failed(ResourceLimit)
    else
      var s := ValidateFrom(limits, plan.operations, m, 0);
      if s.Failed? then s
      else if plan.bytesWritten != 0 && plan.bytesWritten != TotalWritten(plan.operations, |plan.operations|)
      then Failed(InvalidRelocation)
      else Done
  }

  /** The conditions a valid plan meets, without an order of checks. */
  ghost predicate OperationFits(op: PatchOperation, m: RegionMap)
  {
    && SizeOk(op)
    && op.address + OperationSize(op).value < TWO64
    && Covering(m, op.address, OperationSize(op).value).Some?
    && (op.kind.CopyBytes? ==>
          op.sourceAddress + OperationSize(op).value < TWO64
          && Covering(m, op.sourceAddress, OperationSize(op).value).Some?)
  }

  ghost predicate AllFit(ops: seq<PatchOperation>, m: RegionMap)
  {
    forall i {:trigger OperationFits(ops[i], m)} :: 0 <= i < |ops| ==> OperationFits(ops[i], m)
  }

  ghost predicate PlanFits(limits: Limits, plan: PatchPlan, m: RegionMap)
  {
    var ops := plan.operations;
    && |ops| <= limits.maxRelocations
    && AllFit(ops, m)
    && TotalWritten(ops, |ops|) <= limits.maxMappedBytes
    && (plan.bytesWritten == 0 || plan.bytesWritten == TotalWritten(ops, |ops|))
  }

  lemma {:induction false} TotalGrows(ops: seq<PatchOperation>, i: nat, n: nat)
    requires i <= n <= |ops|
    ensures TotalWritten(ops, i) <= TotalWritten(ops, n)
  {
    if i < n { TotalGrows(ops, i, n - 1); }
  }

  lemma VerdictMeansFits(op: PatchOperation, m: RegionMap)
    ensures OperationVerdict(op, m).Done? <==> OperationFits(op, m)
  {
  }

  lemma {:induction false} ValidateFromMeans(limits: Limits, ops: seq<PatchOperation>, m: RegionMap, i: nat)
    requires i <= |ops| && TotalWritten(ops, i) <= limits.maxMappedBytes
    ensures ValidateFrom(limits, ops, m, i).Done? <==>
            (forall j :: i <= j < |ops| ==> OperationFits(ops[j], m))
            && TotalWritten(ops, |ops|) <= limits.maxMappedBytes
    decreases |ops| - i
  {
    if i < |ops| {
      VerdictMeansFits(ops[i], m);
      TotalGrows(ops, i + 1, |ops|);
      if TotalWritten(ops, i + 1) <= limits.maxMappedBytes { ValidateFromMeans(limits, ops, m, i + 1); }
    }
  }

  /** validate accepts exactly the plans that fit. */
  lemma ValidatedMeansFits(limits: Limits, plan: PatchPlan, m: RegionMap)
    ensures Validated(limits, plan, m).Done? <==> PlanFits(limits, plan, m)
  {
    ValidateFromMeans(limits, plan.operations, m, 0);
  }

  // ----- meaning on regions -----

  /** The bytes an operation puts at its address, given memory. */
  function Payload(m: RegionMap, op: PatchOperation): (r: seq<Byte>)
    requires WellFormed(m) && OperationFits(op, m) && !op.kind.AssertBytes?
    ensures |r| == OperationSize(op).value
  {
    match op.kind
    case WriteBytes => op.bytes
    case FillBytes => Filled(op.length, op.fill)
    case WriteInteger => Encode(op.integer, op.width, op.byteOrder)
    case CopyBytes => ReadAt(m, op.sourceAddress, op.length)
  }

  ghost function ApplyOne(m: RegionMap, op: PatchOperation): Result<RegionMap>
    requires WellFormed(m) && OperationFits(op, m)
  {
    var size := OperationSize(op).value;
    match AccessVerdict(m, op.address, size, PERMISSION_READ)
    case Failed(code) => Err(code)
    case Done =>
      if op.kind.AssertBytes? then
        if ReadAt(m, op.address, size) == op.bytes then Ok(m) else Err(InvalidHeader)
      else if op.kind.CopyBytes? && AccessVerdict(m, op.sourceAddress, size, PERMISSION_READ).Failed? then
        Err(AccessVerdict(m, op.sourceAddress, size, PERMISSION_READ).code)
      else Ok(WriteAt(m, op.address, Payload(m, op)))
  }

  lemma FitsKeeps(m: RegionMap, n: RegionMap, op: PatchOperation)
    requires SameShape(m, n) && OperationFits(op, m)
    ensures OperationFits(op, n)
  {
    ShapeCovers(m, n, op.address, OperationSize(op).value);
    if op.kind.CopyBytes? { ShapeCovers(m, n, op.sourceAddress, OperationSize(op).value); }
  }

  lemma AllFitKeeps(m: RegionMap, n: RegionMap, ops: seq<PatchOperation>)
    requires SameShape(m, n) && AllFit(ops, m)
    ensures AllFit(ops, n)
  {
    forall i | 0 <= i < |ops| ensures OperationFits(ops[i], n) {
      assert OperationFits(ops[i], m);
      FitsKeeps(m, n, ops[i]);
    }
  }

  lemma ApplyOneKeeps(m: RegionMap, op: PatchOperation)
    requires WellFormed(m) && OperationFits(op, m) && ApplyOne(m, op).Ok?
    ensures WellFormed(ApplyOne(m, op).value) && SameShape(m, ApplyOne(m, op).value)
  {
    if !op.kind.AssertBytes? { WriteKeeps(m, op.address, Payload(m, op)); }
  }

  /** The operations from i on, one after the other; the first failure ends the run. */
  ghost function ApplyFrom(m: RegionMap, ops: seq<PatchOperation>, i: nat): Result<RegionMap>
    requires WellFormed(m) && AllFit(ops, m) && i <= |ops|
    decreases |ops| - i
  {
    if i == |ops| then Ok(m)
    else
      match ApplyOne(m, ops[i])
      case Err(code) => Err(code)
      case Ok(n) =>
        ApplyOneKeeps(m, ops[i]);
        AllFitKeeps(m, n, ops);
        ApplyFrom(n, ops, i + 1)
  }

  lemma StepForward(m: RegionMap, ops: seq<PatchOperation>, i: nat)
    requires WellFormed(m) && AllFit(ops, m) && i < |ops|
    ensures ApplyOne(m, ops[i]).Err? ==> ApplyFrom(m, ops, i) == Err(ApplyOne(m, ops[i]).code)
    ensures ApplyOne(m, ops[i]).Ok? ==>
              var n := ApplyOne(m, ops[i]).value;
              WellFormed(n) && AllFit(ops, n) && ApplyFrom(m, ops, i) == ApplyFrom(n, ops, i + 1)
  {
    if ApplyOne(m, ops[i]).Ok? {
      ApplyOneKeeps(m, ops[i]);
      AllFitKeeps(m, ApplyOne(m, ops[i]).value, ops);
    }
  }

  // ----- meaning on flat memory -----

  ghost function FlatPayload(f: FlatMemory, op: PatchOperation): seq<Byte>
  {
    match op.kind
    case WriteBytes | AssertBytes => op.bytes
    case FillBytes => Filled(op.length, op.fill)
    case WriteInteger => Encode(op.integer, op.width, op.byteOrder)
    case CopyBytes => Fetch(f, op.sourceAddress, op.length)
  }

  /** One operation as the documentation describes it: a copy reads its whole source first, an
      assertion changes nothing. */
  ghost function FlatStep(f: FlatMemory, op: PatchOperation): Option<FlatMemory>
  {
    if op.kind.AssertBytes? then
      if Fetch(f, op.address, |op.bytes|) == op.bytes then Some(f) else None
    else Some(Store(f, op.address, FlatPayload(f, op)))
  }

  /** Fold the operations from i on over flat memory; None when an assertion fails. */
  ghost function FlatRun(f: FlatMemory, ops: seq<PatchOperation>, i: nat): Option<FlatMemory>
    requires i <= |ops|
    decreases |ops| - i
  {
    if i == |ops| then Some(f)
    else
      match FlatStep(f, ops[i])
      case None => None
      case Some(g) => FlatRun(g, ops, i + 1)
  }

  /** Every region that the operation reads, its destination included, is readable. */
  ghost predicate Readable(m: RegionMap, op: PatchOperation)
    requires OperationFits(op, m)
  {
    var size := OperationSize(op).value;
    && AccessVerdict(m, op.address, size, PERMISSION_READ).Done?
    && (op.kind.CopyBytes? ==> AccessVerdict(m, op.sourceAddress, size, PERMISSION_READ).Done?)
  }

  lemma ReadableKeeps(m: RegionMap, n: RegionMap, op: PatchOperation)
    requires SameShape(m, n) && OperationFits(op, m) && OperationFits(op, n)
    ensures Readable(m, op) <==> Readable(n, op)
  {
    var size := OperationSize(op).value;
    ShapeCovers(m, n, op.address, size);
    var k := Covering(m, op.address, size).value;
    assert m[k].(bytes := []) == n[k].(bytes := []);
    if op.kind.CopyBytes? {
      ShapeCovers(m, n, op.sourceAddress, size);
      var j := Covering(m, op.sourceAddress, size).value;
      assert m[j].(bytes := []) == n[j].(bytes := []);
    }
  }

  lemma StepRefines(m: RegionMap, op: PatchOperation)
    requires WellFormed(m) && OperationFits(op, m)
    ensures ApplyOne(m, op).Ok? <==> Readable(m, op) && FlatStep(Flat(m), op).Some?
    ensures ApplyOne(m, op).Ok? ==>
              WellFormed(ApplyOne(m, op).value) && Flat(ApplyOne(m, op).value) == FlatStep(Flat(m), op).value
  {
    var size := OperationSize(op).value;
    if op.kind.AssertBytes? {
      ReadIsFetch(m, op.address, size);
    } else {
      if op.kind.CopyBytes? { ReadIsFetch(m, op.sourceAddress, size); }
      assert Payload(m, op) == FlatPayload(Flat(m), op);
      WriteIsStore(m, op.address, Payload(m, op));
    }
  }

  ghost predicate AllReadable(m: RegionMap, ops: seq<PatchOperation>, i: nat)
    requires AllFit(ops, m)
  {
    forall j {:trigger Readable(m, ops[j])} :: i <= j < |ops| ==> Readable(m, ops[j])
  }

  lemma ReadableTail(m: RegionMap, n: RegionMap, ops: seq<PatchOperation>, i: nat)
    requires SameShape(m, n) && AllFit(ops, m) && AllFit(ops, n) && i < |ops|
    ensures AllReadable(m, ops, i) <==> Readable(m, ops[i]) && AllReadable(n, ops, i + 1)
  {
    forall j | i < j < |ops| ensures Readable(m, ops[j]) <==> Readable(n, ops[j]) {
      ReadableKeeps(m, n, ops[j]);
    }
  }

  /** The run on regions refines the fold over flat memory: it succeeds iff everything it
      reads is readable and every assertion matches memory as the earlier operations left it. */
  lemma {:induction false} RunRefines(m: RegionMap, ops: seq<PatchOperation>, i: nat)
    requires WellFormed(m) && AllFit(ops, m) && i <= |ops|
    ensures ApplyFrom(m, ops, i).Ok? <==> AllReadable(m, ops, i) && FlatRun(Flat(m), ops, i).Some?
    ensures ApplyFrom(m, ops, i).Ok? ==>
              && WellFormed(ApplyFrom(m, ops, i).value) && SameShape(m, ApplyFrom(m, ops, i).value)
              && Flat(ApplyFrom(m, ops, i).value) == FlatRun(Flat(m), ops, i).value
    decreases |ops| - i
  {
    if i < |ops| {
      StepRefines(m, ops[i]);
      if ApplyOne(m, ops[i]).Ok? {
        var n := ApplyOne(m, ops[i]).value;
        ApplyOneKeeps(m, ops[i]);
        AllFitKeeps(m, n, ops);
        ReadableTail(m, n, ops, i);
        RunRefines(n, ops, i + 1);
        if ApplyFrom(n, ops, i + 1).Ok? { SameShapeTransitive(m, n, ApplyFrom(n, ops, i + 1).value); }
      }
    }
  }

  /** Bytes outside every written range keep their value. */
  lemma {:induction false} UntouchedBytes(f: FlatMemory, ops: seq<PatchOperation>, i: nat, a: int)
    requires i <= |ops| && FlatRun(f, ops, i).Some? && a in f
    requires forall j :: i <= j < |ops| ==> !InRange(a, ops[j].address, Written(ops[j]))
    requires forall j :: i <= j < |ops| ==> SizeOk(ops[j])
    ensures a in FlatRun(f, ops, i).value && FlatRun(f, ops, i).value[a] == f[a]
    decreases |ops| - i
  {
    if i < |ops| {
      if !ops[i].kind.AssertBytes? { PayloadSize(f, ops[i]); }
      UntouchedBytes(FlatStep(f, ops[i]).value, ops, i + 1, a);
    }
  }

  lemma PayloadSize(f: FlatMemory, op: PatchOperation)
    requires SizeOk(op) && !op.kind.AssertBytes?
    ensures |FlatPayload(f, op)| == Written(op)
  {
  }
}
