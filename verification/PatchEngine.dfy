/** PatchEngine::validate and apply of src/patch_engine.cc: all-or-nothing patching. */
module PatchEngine {
  import opened Base
  import opened Crc
  import opened OrderedMaps
  import opened Regions
  import opened AddressSpaces
  import opened PatchPlans

  // ----- the checksum over all regions -----

  function Mix(combined: Word, checksum: Word): Word
  {
    combined ^ (checksum + 0x9e37_79b9 + (combined << 6) + (combined >> 2))
  }

  /** A left fold. */
  function Folded<W>(mix: (W, W) -> W, start: W, values: seq<W>): W
  {
    if values == [] then start else mix(Folded(mix, start, values[..|values| - 1]), values[|values| - 1])
  }

  lemma FoldedOne<W>(mix: (W, W) -> W, start: W, values: seq<W>, i: nat)
    requires i < |values|
    ensures Folded(mix, start, values[..i + 1]) == mix(Folded(mix, start, values[..i]), values[i])
  {
    assert values[..i + 1][..i] == values[..i];
  }

  /** What sum makes of the regions' bytes, in the given order. */
  function Summed<W>(sum: seq<Byte> -> W, m: RegionMap, order: seq<nat>): (r: seq<W>)
    requires forall i :: 0 <= i < |order| ==> order[i] in m
    ensures |r| == |order|
  {
    seq(|order|, i requires 0 <= i < |order| => sum(m[order[i]].bytes))
  }

  /** The fold over all regions in address order. */
  function ChecksumWord(m: RegionMap): Word
  {
    Folded(Mix, 0, Summed(Checksum, m, Ascending(m.Keys)))
  }

  function MemoryChecksum(m: RegionMap): U32
  {
    WordValue(ChecksumWord(m))
  }

  /** memory_checksum. */
  method ComputeMemoryChecksum(memory: AddressSpace) returns (r: U32)
    ensures r == MemoryChecksum(memory.regions)
  {
    var combined := CombineChecksums(memory);
    r := WordValue(combined);
  }

  method CombineChecksums(memory: AddressSpace) returns (combined: Word)
    ensures combined == ChecksumWord(memory.regions)
  {
    combined := 0;
    var order := Ascending(memory.regions.Keys);
    ghost var all := Summed(Checksum, memory.regions, order);
    for i := 0 to |order|
      invariant combined == Folded(Mix, 0, all[..i])
    {
      var regionChecksum := Crc32(memory.regions[order[i]].bytes);
      FoldedOne(Mix, 0, all, i);
      combined := Mix(combined, regionChecksum);
    }
    assert all[..|order|] == all;
  }

  /** Mixing in a checksum adds it, a constant, and the value so far 64 times and a fourth time over, and
      flips the value by that. */
  lemma MixMeans(combined: Word, checksum: Word)
    ensures Mix(combined, checksum) == combined ^ (checksum + 0x9e37_79b9 + combined * 64 + combined / 4)
  {
    ShiftsMean(combined, checksum);
  }

  lemma ShiftsMean(v: Word, w: Word)
    ensures w + 0x9e37_79b9 + (v << 6) + (v >> 2) == w + 0x9e37_79b9 + v * 64 + v / 4
  {
  }

  lemma SummedGrows<W>(sum: seq<Byte> -> W, m: RegionMap, n: RegionMap, order: seq<nat>, k: U64)
    requires (forall i :: 0 <= i < |order| ==> order[i] in m && order[i] != k) && k in n && n == m[k := n[k]]
    ensures Summed(sum, n, order + [k])[..|order|] == Summed(sum, m, order)
    ensures Summed(sum, n, order + [k])[|order|] == sum(n[k].bytes)
  {
  }

  lemma FoldGrows<W>(mix: (W, W) -> W, start: W, sum: seq<Byte> -> W, m: RegionMap, n: RegionMap, order: seq<nat>,
                     k: U64)
    requires (forall i :: 0 <= i < |order| ==> order[i] in m && order[i] != k) && k in n && n == m[k := n[k]]
    ensures Folded(mix, start, Summed(sum, n, order + [k])) ==
            mix(Folded(mix, start, Summed(sum, m, order)), sum(n[k].bytes))
  {
    var all := Summed(sum, n, order + [k]);
    SummedGrows(sum, m, n, order, k);
    assert all[..|order| + 1] == all;
    FoldedOne(mix, start, all, |order|);
  }

  lemma OrderGrows(m: RegionMap, n: RegionMap, k: U64) returns (order: seq<nat>)
    requires k in n && n == m[k := n[k]] && forall j: U64 {:trigger j in m} :: j in m ==> j < k
    ensures order == Ascending(m.Keys) && order + [k] == Ascending(n.Keys)
    ensures forall i :: 0 <= i < |order| ==> order[i] in m && order[i] != k
  {
    assert n.Keys == m.Keys + {k};
    AscendingAppend(m.Keys, k);
    order := Ascending(m.Keys);
  }

  lemma GrowsAbove<W>(mix: (W, W) -> W, start: W, sum: seq<Byte> -> W, m: RegionMap, n: RegionMap, k: U64)
    requires k in n && n == m[k := n[k]] && forall j: U64 {:trigger j in m} :: j in m ==> j < k
    ensures Folded(mix, start, Summed(sum, n, Ascending(n.Keys))) ==
            mix(Folded(mix, start, Summed(sum, m, Ascending(m.Keys))), sum(n[k].bytes))
  {
    var order := OrderGrows(m, n, k);
    FoldGrows(mix, start, sum, m, n, order, k);
  }

  /** What the checksum of a memory is: zero for no regions, and with a region above all others, what
      mixing in the checksum of its bytes makes of the checksum of the others. */
  lemma ChecksumGrows(m: RegionMap, n: RegionMap, k: U64)
    requires k in n && n == m[k := n[k]] && forall j: U64 {:trigger j in m} :: j in m ==> j < k
    ensures ChecksumWord(n) == Mix(ChecksumWord(m), Checksum(n[k].bytes))
  {
    GrowsAbove(Mix, 0, Checksum, m, n, k);
  }

  lemma NothingSums()
    ensures ChecksumWord(map[]) == 0
  {
  }

  // ----- the undo log -----

  datatype Undo = Undo(address: U64, bytes: Blob)

  /** Memory after the log has been replayed from its last entry to its first. */
  ghost function Replay(m: RegionMap, undo: seq<Undo>): RegionMap
    requires WellFormed(m)
  {
    if undo == [] then m
    else
      var last := undo[|undo| - 1];
      WriteKeeps(m, last.address, last.bytes);
      Replay(WriteAt(m, last.address, last.bytes), undo[..|undo| - 1])
  }

  /** Logging what a write is about to overwrite keeps the state the log leads back to. */
  lemma LogThenWrite(m: RegionMap, undo: seq<Undo>, address: U64, data: seq<Byte>)
    requires WellFormed(m) && 0 < |data| < TWO64 && Covering(m, address, |data|).Some?
    ensures WellFormed(WriteAt(m, address, data))
    ensures Replay(WriteAt(m, address, data), undo + [Undo(address, ReadAt(m, address, |data|))]) == Replay(m, undo)
  {
    WriteUndone(m, address, data);
    assert (undo + [Undo(address, ReadAt(m, address, |data|))])[..|undo|] == undo;
  }

  /** An entry whose write never happened does no harm. */
  lemma LogAlone(m: RegionMap, undo: seq<Undo>, address: U64, length: nat)
    requires WellFormed(m) && 0 < length < TWO64 && Covering(m, address, length).Some?
    ensures Replay(m, undo + [Undo(address, ReadAt(m, address, length))]) == Replay(m, undo)
  {
    WriteBackSame(m, address, length);
    assert (undo + [Undo(address, ReadAt(m, address, length))])[..|undo|] == undo;
  }

  /** The rollback loops: entries are written back in reverse, errors are ignored. */
  method Rollback(memory: AddressSpace, undo: seq<Undo>)
    requires memory.Valid()
    modifies memory`regions
    ensures memory.Valid() && memory.regions == Replay(old(memory.regions), undo)
  {
    var n := |undo|;
    assert undo[..n] == undo;
    while n > 0
      invariant n <= |undo| && memory.Valid()
      invariant Replay(memory.regions, undo[..n]) == Replay(old(memory.regions), undo)
    {
      var entry := undo[n - 1];
      assert undo[..n][..n - 1] == undo[..n - 1];
      var ignored := memory.Write(entry.address, entry.bytes, true);
      n := n - 1;
    }
  }

  class PatchEngine {
    const limits: Limits

    constructor (limits: Limits)
      ensures this.limits == limits
    {
      this.limits := limits;
    }

    /** validate. */
    method Validate(plan: PatchPlan, memory: AddressSpace) returns (s: Status)
      ensures s == Validated(limits, plan, memory.regions)
    {
      if |plan.operations| > limits.maxRelocations { return Failed(ResourceLimit); }
      var totalWritten: U64 := 0;
      for index := 0 to |plan.operations|
        invariant totalWritten == TotalWritten(plan.operations, index)
        invariant ValidateFrom(limits, plan.operations, memory.regions, 0) ==
                  ValidateFrom(limits, plan.operations, memory.regions, index)
      {
        var operation := plan.operations[index];
        var size := OperationSize(operation);
        if size.None? || size.value == 0 { return Failed(InvalidRelocation); }
        if CheckedAdd(operation.address, size.value).None? { return Failed(AddressOverflow); }
        var region := RegionAt(memory.regions, operation.address);
        if region.None? || !memory.regions[region.value].Contains(operation.address, size.value) {
          return Failed(MappingMissing);
        }
        if operation.kind.CopyBytes? {
          if CheckedAdd(operation.sourceAddress, size.value).None? { return Failed(AddressOverflow); }
          var source := RegionAt(memory.regions, operation.sourceAddress);
          if source.None? || !memory.regions[source.value].Contains(operation.sourceAddress, size.value) {
            return Failed(MappingMissing);
          }
        }
        if !operation.kind.AssertBytes? {
          var next := CheckedAdd(totalWritten, size.value);
          if next.None? || next.value > limits.maxMappedBytes { return Failed(ResourceLimit); }
          totalWritten := next.value;
        }
      }
      if plan.bytesWritten != 0 && plan.bytesWritten != totalWritten { return Failed(InvalidRelocation); }
      return Done;
    }

    /** The part of the loop body that changes memory. */
    method Perform(operation: PatchOperation, memory: AddressSpace) returns (s: Status)
      requires memory.Valid() && OperationFits(operation, memory.regions) && !operation.kind.AssertBytes?
      requires AccessVerdict(memory.regions, operation.address, OperationSize(operation).value, PERMISSION_READ).Done?
      modifies memory`regions
      ensures memory.Valid()
      ensures ApplyOne(old(memory.regions), operation) ==
              if s.Done? then Ok(memory.regions) else Err(s.code)
      ensures s.Failed? ==> memory.regions == old(memory.regions)
      ensures s.Done? ==>
                memory.regions == WriteAt(old(memory.regions), operation.address,
                                          Payload(old(memory.regions), operation))
    {
      match operation.kind
      case WriteBytes =>
        s := memory.Write(operation.address, operation.bytes, true);
      case FillBytes =>
        var fill := Filled(operation.length, operation.fill);
        s := memory.Write(operation.address, fill, true);
      case WriteInteger =>
        s := memory.WriteInteger(operation.address, operation.width, operation.byteOrder, operation.integer, true);
      case CopyBytes =>
        var copy;
        s, copy := memory.Read(operation.sourceAddress, operation.length);
        if s.Done? { s := memory.Write(operation.address, copy, true); }
    }

    /** One turn of the loop in apply; a failure has rolled everything back. */
    method ApplyOperation(operation: PatchOperation, memory: AddressSpace, undo: seq<Undo>)
      returns (s: Status, log: seq<Undo>)
      requires memory.Valid() && OperationFits(operation, memory.regions)
      modifies memory`regions
      ensures memory.Valid()
      ensures s.Done? ==> ApplyOne(old(memory.regions), operation) == Ok(memory.regions)
      ensures s.Done? ==> Replay(memory.regions, log) == Replay(old(memory.regions), undo)
      ensures s.Failed? ==> ApplyOne(old(memory.regions), operation) == Err(s.code)
      ensures s.Failed? ==> memory.regions == Replay(old(memory.regions), undo)
    {
      ghost var here := memory.regions;
      var size := OperationSize(operation).value;
      log := undo;
      var before;
      s, before := memory.Read(operation.address, size);
      if s.Failed? {
        Rollback(memory, log);
        return;
      }
      if operation.kind.AssertBytes? {
        if before != operation.bytes {
          Rollback(memory, log);
          return Failed(InvalidHeader), log;
        }
        return Done, log;
      }
      log := log + [Undo(operation.address, before)];
      s := Perform(operation, memory);
      if s.Failed? {
        LogAlone(here, undo, operation.address, size);
        Rollback(memory, log);
        return;
      }
      LogThenWrite(here, undo, operation.address, Payload(here, operation));
    }

    /** One turn of the loop in apply, in terms of the whole run. */
    method Turn(ops: seq<PatchOperation>, i: nat, memory: AddressSpace, undo: seq<Undo>,
                ghost start: RegionMap, ghost whole: Result<RegionMap>)
      returns (s: Status, log: seq<Undo>, size: nat)
      requires memory.Valid() && i < |ops| && Midway(start, whole, ops, i, memory.regions, undo)
      modifies memory`regions
      ensures memory.Valid()
      ensures s.Done? ==> Midway(start, whole, ops, i + 1, memory.regions, log)
      ensures s.Done? ==> TotalWritten(ops, i + 1) == TotalWritten(ops, i) + size
      ensures s.Failed? ==> whole == Err(s.code) && memory.regions == start
    {
      assert OperationFits(ops[i], memory.regions);
      size := if ops[i].kind.AssertBytes? then 0 else OperationSize(ops[i]).value;
      StepForward(memory.regions, ops, i);
      s, log := ApplyOperation(ops[i], memory, undo);
    }

    /** The loop in apply. */
    method ApplyOperations(ops: seq<PatchOperation>, memory: AddressSpace)
      returns (s: Status, applied: nat, written: nat)
      requires memory.Valid() && AllFit(ops, memory.regions)
      modifies memory`regions
      ensures memory.Valid()
      ensures ApplyFrom(old(memory.regions), ops, 0) == if s.Done? then Ok(memory.regions) else Err(s.code)
      ensures s.Done? ==> applied == |ops| && written == TotalWritten(ops, |ops|)
      ensures s.Failed? ==> memory.regions == old(memory.regions)
    {
      ghost var start, whole := memory.regions, ApplyFrom(memory.regions, ops, 0);
      var undo: seq<Undo> := [];
      applied, written := 0, 0;
      while applied < |ops|
        invariant memory.Valid() && applied <= |ops|
        invariant Midway(start, whole, ops, applied, memory.regions, undo)
        invariant written == TotalWritten(ops, applied)
      {
        var size;
        s, undo, size := Turn(ops, applied, memory, undo, start, whole);
        if s.Failed? { return; }
        applied := applied + 1;
        written := written + size;
      }
      s := Done;
    }

    /** apply. */
    method Apply(plan: PatchPlan, memory: AddressSpace) returns (r: Result<PatchResult>)
      requires memory.Valid()
      modifies memory`regions
      ensures memory.Valid()
      ensures r.Err? ==> memory.regions == old(memory.regions)
      ensures Outcome(limits, plan, old(memory.regions), r, memory.regions)
    {
      var valid := Validate(plan, memory);
      if valid.Failed? { return Err(valid.code); }
      ValidatedMeansFits(limits, plan, memory.regions);
      if plan.expectedChecksum != 0 {
        var checksum := ComputeMemoryChecksum(memory);
        if checksum != plan.expectedChecksum { return Err(InvalidHeader); }
      }
      var s, applied, written := ApplyOperations(plan.operations, memory);
      if s.Failed? { return Err(s.code); }
      var resulting := ComputeMemoryChecksum(memory);
      return Ok(PatchResult(applied, written, resulting));
    }
  }

  /** After i operations: replaying the log restores the start, and going on gives the whole run. */
  ghost predicate Midway(start: RegionMap, whole: Result<RegionMap>, ops: seq<PatchOperation>, i: nat,
                         m: RegionMap, undo: seq<Undo>)
    requires i <= |ops|
  {
    WellFormed(m) && AllFit(ops, m) && Replay(m, undo) == start && ApplyFrom(m, ops, i) == whole
  }

  /** The outcome of apply, stated on the region maps before and after. */
  ghost predicate Outcome(limits: Limits, plan: PatchPlan, before: RegionMap, r: Result<PatchResult>, after: RegionMap)
    requires WellFormed(before)
  {
    if Validated(limits, plan, before).Failed? then r == Err(Validated(limits, plan, before).code)
    else if plan.expectedChecksum != 0 && MemoryChecksum(before) != plan.expectedChecksum then r == Err(InvalidHeader)
    else
      ValidatedMeansFits(limits, plan, before);
      match ApplyFrom(before, plan.operations, 0)
      case Err(code) => r == Err(code)
      case Ok(m) =>
        && after == m
        && r == Ok(PatchResult(|plan.operations|, TotalWritten(plan.operations, |plan.operations|), MemoryChecksum(m)))
  }

  /** apply in terms of flat memory: it succeeds exactly when the plan fits, the checksum is as
      expected, everything it reads is readable and the fold of its operations over flat memory
      meets no failing assertion; memory is then the result of that fold, with every region's
      extent, name and permissions as before. */
  lemma ApplyIsFlatRun(limits: Limits, plan: PatchPlan, before: RegionMap, r: Result<PatchResult>, after: RegionMap)
    requires WellFormed(before) && Outcome(limits, plan, before, r, after)
    ensures r.Ok? <==>
            && PlanFits(limits, plan, before)
            && (plan.expectedChecksum == 0 || plan.expectedChecksum == MemoryChecksum(before))
            && AllReadable(before, plan.operations, 0)
            && FlatRun(Flat(before), plan.operations, 0).Some?
    ensures r.Ok? ==>
            && WellFormed(after) && SameShape(before, after)
            && Flat(after) == FlatRun(Flat(before), plan.operations, 0).value
            && r.value.operationsApplied == |plan.operations|
            && r.value.bytesWritten == TotalWritten(plan.operations, |plan.operations|)
            && r.value.resultingChecksum == MemoryChecksum(after)
  {
    ValidatedMeansFits(limits, plan, before);
    if PlanFits(limits, plan, before) { RunRefines(before, plan.operations, 0); }
  }

  lemma FitMeansSized(ops: seq<PatchOperation>, m: RegionMap)
    requires AllFit(ops, m)
    ensures forall j :: 0 <= j < |ops| ==> SizeOk(ops[j])
  {
    forall j | 0 <= j < |ops| ensures SizeOk(ops[j]) { assert OperationFits(ops[j], m); }
  }

  /** Whatever a successful patch does, a byte outside its write ranges keeps its value. */
  lemma ApplyLeavesRest(limits: Limits, plan: PatchPlan, before: RegionMap, r: Result<PatchResult>, after: RegionMap,
                        a: int)
    requires WellFormed(before) && Outcome(limits, plan, before, r, after) && r.Ok?
    requires a in Flat(before)
    requires forall j :: 0 <= j < |plan.operations| ==>
               !InRange(a, plan.operations[j].address, Written(plan.operations[j]))
    ensures WellFormed(after) && a in Flat(after) && Flat(after)[a] == Flat(before)[a]
  {
    ApplyIsFlatRun(limits, plan, before, r, after);
    FitMeansSized(plan.operations, before);
    UntouchedBytes(Flat(before), plan.operations, 0, a);
  }
}
