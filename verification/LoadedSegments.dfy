/** What the segment loop of src/loader.cc leaves in memory, for any image, base and start memory. */
module LoadedSegments {
  import opened Base
  import opened Image
  import opened Loader
  import opened Regions

  /** Everything the segment loop is given but memory. */
  datatype SegmentJob = SegmentJob(
    limits: Limits, memoryLimits: Limits, segments: seq<Segment>, file: seq<Byte>, bias: U64, enforceWx: bool)

  /** The loop went from the regions m through the memories of the trace. */
  ghost predicate Runs(j: SegmentJob, m: RegionMap, trace: seq<RegionMap>)
  {
    && WellFormed(m) && Backed(j.segments, j.file)
    && LoadRun(j.limits, j.memoryLimits, j.segments, j.file, j.bias, j.enforceWx, m, trace)
  }

  /** Segment k takes memory, at an address that fits. */
  predicate Takes(j: SegmentJob, k: int)
  {
    0 <= k < |j.segments| && j.segments[k].memorySize > 0 && WindowOf(j.limits, j.segments[k], j.bias).Ok?
  }

  function WindowAt(j: SegmentJob, k: int): Window
    requires Takes(j, k)
  {
    WindowOf(j.limits, j.segments[k], j.bias).value
  }

  function RegionFor(j: SegmentJob, k: int): MemoryRegion
    requires Backed(j.segments, j.file) && Takes(j, k)
  {
    SegmentRegion(j.segments[k], WindowAt(j, k), j.enforceWx, Content(j.segments[k], j.file))
  }

  // ----- one turn -----

  lemma EmptyTurn(j: SegmentJob, m: RegionMap, trace: seq<RegionMap>, i: nat)
    requires Runs(j, m, trace) && i + 1 < |trace| && j.segments[i].memorySize == 0
    ensures trace[i + 1] == trace[i]
  {
    assert LoadStep(j.limits, j.memoryLimits, j.segments, j.file, j.bias, j.enforceWx, trace, i);
  }

  lemma MappingTurn(j: SegmentJob, m: RegionMap, trace: seq<RegionMap>, i: nat)
    requires Runs(j, m, trace) && i + 1 < |trace| && j.segments[i].memorySize > 0
    ensures Takes(j, i) && 0 < WindowAt(j, i).size && WindowAt(j, i).base + WindowAt(j, i).size < TWO64
    ensures !OverlapsAny(trace[i], WindowAt(j, i).base, WindowAt(j, i).size)
    ensures trace[i + 1] == trace[i][WindowAt(j, i).base := RegionFor(j, i)]
  {
    assert LoadStep(j.limits, j.memoryLimits, j.segments, j.file, j.bias, j.enforceWx, trace, i);
  }

  lemma RegionForOk(j: SegmentJob, k: int)
    requires Backed(j.segments, j.file) && Takes(j, k)
    requires 0 < WindowAt(j, k).size && WindowAt(j, k).base + WindowAt(j, k).size < TWO64
    ensures RegionOk(WindowAt(j, k).base, RegionFor(j, k)) && RegionFor(j, k).size == WindowAt(j, k).size
  {
  }

  /** Every memory on the way is well formed. */
  lemma {:induction false} RunWellFormed(j: SegmentJob, m: RegionMap, trace: seq<RegionMap>, i: nat)
    requires Runs(j, m, trace) && i < |trace|
    ensures WellFormed(trace[i])
  {
    if i > 0 {
      RunWellFormed(j, m, trace, i - 1);
      if j.segments[i - 1].memorySize == 0 {
        EmptyTurn(j, m, trace, i - 1);
      } else {
        MappingTurn(j, m, trace, i - 1);
        RegionForOk(j, i - 1);
        MapKeeps(trace[i - 1], WindowAt(j, i - 1).base, RegionFor(j, i - 1));
      }
    }
  }

  // ----- when the loop meets an overlap -----

  /** The pages of segment k meet the range. */
  ghost predicate Meets(j: SegmentJob, k: int, base: int, size: int)
  {
    Takes(j, k) && WindowAt(j, k).base < base + size && base < WindowAt(j, k).base + WindowAt(j, k).size
  }

  /** So do those of one of the first n segments. */
  ghost predicate MeetsOne(j: SegmentJob, n: nat, base: int, size: int)
  {
    exists k {:trigger Meets(j, k, base, size)} :: 0 <= k < n && Meets(j, k, base, size)
  }

  lemma OneMoreToMeet(j: SegmentJob, n: nat, base: int, size: int)
    ensures MeetsOne(j, n + 1, base, size) <==> MeetsOne(j, n, base, size) || Meets(j, n, base, size)
  {
  }

  lemma OneMoreRegion(m: RegionMap, k: U64, r: MemoryRegion, base: int, size: int)
    requires k !in m
    ensures OverlapsAny(m[k := r], base, size) <==> OverlapsAny(m, base, size) || Overlaps(r, base, size)
  {
    var n := m[k := r];
    if i :| i in m && Overlaps(m[i], base, size) { assert Overlaps(n[i], base, size); }
    if Overlaps(r, base, size) { assert Overlaps(n[k], base, size); }
  }

  /** A range overlaps what is mapped after n turns exactly when it overlaps the start memory or meets
      the pages of one of the first n segments. */
  lemma {:induction false} OverlapMeans(j: SegmentJob, m: RegionMap, trace: seq<RegionMap>, n: nat, base: int,
                                        size: int)
    requires Runs(j, m, trace) && n < |trace|
    ensures OverlapsAny(trace[n], base, size) <==> OverlapsAny(m, base, size) || MeetsOne(j, n, base, size)
  {
    if n > 0 {
      OverlapMeans(j, m, trace, n - 1, base, size);
      OneMoreToMeet(j, n - 1, base, size);
      if j.segments[n - 1].memorySize == 0 {
        EmptyTurn(j, m, trace, n - 1);
      } else {
        MappingTurn(j, m, trace, n - 1);
        RunWellFormed(j, m, trace, n - 1);
        RegionForOk(j, n - 1);
        MapKeeps(trace[n - 1], WindowAt(j, n - 1).base, RegionFor(j, n - 1));
        OneMoreRegion(trace[n - 1], WindowAt(j, n - 1).base, RegionFor(j, n - 1), base, size);
      }
    }
  }

  /** The verdict on the segment the loop stops at. */
  ghost function StopVerdict(j: SegmentJob, trace: seq<RegionMap>): Status
    requires 0 < |trace| <= |j.segments|
  {
    var last := trace[|trace| - 1];
    SegmentVerdict(j.limits, j.memoryLimits, last, TotalSize(last), j.segments[|trace| - 1], j.bias)
  }

  /** Segment i takes pages that fit the address space and what is left of the memory limit. */
  ghost predicate HasRoom(j: SegmentJob, m: RegionMap, i: int)
  {
    && Takes(j, i) && 0 < WindowAt(j, i).size && WindowAt(j, i).base + WindowAt(j, i).size < TWO64
    && TotalSize(m) + WindowAt(j, i).size <= j.memoryLimits.maxMappedBytes
  }

  /** The loop stops at an overlap exactly when the pages it has room for meet the start memory or the
      pages of an earlier segment. */
  lemma StopsAtOverlapIff(j: SegmentJob, m: RegionMap, trace: seq<RegionMap>)
    requires Runs(j, m, trace) && |trace| <= |j.segments|
    ensures var i := |trace| - 1;
            StopVerdict(j, trace) == Failed(MappingOverlap) <==>
            && HasRoom(j, trace[i], i)
            && (OverlapsAny(m, WindowAt(j, i).base, WindowAt(j, i).size)
                || MeetsOne(j, i, WindowAt(j, i).base, WindowAt(j, i).size))
  {
    var i := |trace| - 1;
    if Takes(j, i) { OverlapMeans(j, m, trace, i, WindowAt(j, i).base, WindowAt(j, i).size); }
  }

  // ----- what stays mapped -----

  /** Once mapped, a segment's region is never replaced. */
  lemma {:induction false} RegionStays(j: SegmentJob, m: RegionMap, trace: seq<RegionMap>, k: nat, n: nat)
    requires Runs(j, m, trace) && k < n < |trace| && j.segments[k].memorySize > 0
    ensures Takes(j, k) && WindowAt(j, k).base in trace[n] && trace[n][WindowAt(j, k).base] == RegionFor(j, k)
    decreases n
  {
    if k == n - 1 {
      MappingTurn(j, m, trace, k);
    } else {
      RegionStays(j, m, trace, k, n - 1);
      if j.segments[n - 1].memorySize == 0 {
        EmptyTurn(j, m, trace, n - 1);
      } else {
        MappingTurn(j, m, trace, n - 1);
        RunWellFormed(j, m, trace, n - 1);
        RegionForOk(j, n - 1);
        MapKeeps(trace[n - 1], WindowAt(j, n - 1).base, RegionFor(j, n - 1));
      }
    }
  }

  /** Region r holds content at address, with zeros behind it up to size bytes. */
  lemma ContentInRegion(r: MemoryRegion, address: nat, size: nat, content: seq<Byte>)
    requires |content| <= size && r.base <= address && address + size <= r.base + r.size
    requires r.bytes == Splice(Zeros(r.size), address - r.base, content)
    ensures r.bytes[address - r.base..address - r.base + size] == content + Zeros(size - |content|)
  {
    var offset := address - r.base;
    var part, whole := r.bytes[offset..offset + size], content + Zeros(size - |content|);
    forall i | 0 <= i < size ensures part[i] == whole[i] {
      assert r.bytes[offset + i] == if i < |content| then content[i] else 0;
    }
  }

  /** The bytes segment k brings: its file bytes, then zeros up to its size in memory. */
  function SegmentImage(j: SegmentJob, k: int): (r: seq<Byte>)
    requires Backed(j.segments, j.file) && 0 <= k < |j.segments|
    ensures |r| == j.segments[k].memorySize
  {
    var x := j.segments[k];
    Content(x, j.file) + Zeros(x.memorySize - x.fileSize)
  }

  /** Segment k stands in memory n at its displaced address: the bytes of the file, then zeros. */
  ghost predicate SegmentStands(j: SegmentJob, k: int, n: RegionMap)
  {
    && Backed(j.segments, j.file) && 0 <= k < |j.segments| && j.segments[k].memorySize > 0
    && var address, size := j.segments[k].virtualAddress + j.bias, j.segments[k].memorySize;
       && address + size < TWO64 && WellFormed(n) && Covering(n, address, size).Some?
       && ReadAt(n, address, size) == SegmentImage(j, k)
  }

  /** A segment whose region is in memory n stands there. */
  lemma RegionHolds(j: SegmentJob, k: nat, n: RegionMap)
    requires Backed(j.segments, j.file) && Takes(j, k) && WellFormed(n)
    requires WindowAt(j, k).base in n && n[WindowAt(j, k).base] == RegionFor(j, k)
    ensures SegmentStands(j, k, n)
  {
    var x, w, r := j.segments[k], WindowAt(j, k), RegionFor(j, k);
    assert RegionOk(w.base, r);
    CoveringFinds(n, w.address, x.memorySize, w.base);
    ContentInRegion(r, w.address, x.memorySize, Content(x, j.file));
  }

  /** From the turn that maps it on, every segment that takes memory stands. */
  lemma SegmentArrives(j: SegmentJob, m: RegionMap, trace: seq<RegionMap>, k: nat, n: nat)
    requires Runs(j, m, trace) && k < n < |trace| && j.segments[k].memorySize > 0
    ensures SegmentStands(j, k, trace[n])
  {
    RegionStays(j, m, trace, k, n);
    RunWellFormed(j, m, trace, n);
    RegionHolds(j, k, trace[n]);
  }
}
