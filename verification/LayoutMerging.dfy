/** The greedy merging of adjacent regions in src/layout.cc. */
module LayoutMerging {
  import opened Base
  import opened Layout

  /** The guard: contiguous in memory and in the file, with equal permissions. */
  predicate Mergeable(left: LayoutRegion, right: LayoutRegion)
  {
    && left.TargetEnd() == right.targetAddress
    && left.SourceEnd() == right.sourceOffset
    && left.permissions == right.permissions
  }

  /** Sorted, nonempty and disjoint: what merging starts from. */
  predicate Laid(s: seq<LayoutRegion>)
  {
    AllSound(s) && Spread(s)
  }

  predicate MergeableAt(s: seq<LayoutRegion>, i: int)
    requires 0 <= i < |s| - 1
  {
    Mergeable(s[i], s[i + 1])
  }

  function Names(s: seq<LayoutRegion>, lo: nat, hi: nat): seq<U32>
    requires lo <= hi <= |s|
    decreases hi
  {
    if lo == hi then [] else Names(s, lo, hi - 1) + s[hi - 1].name
  }

  /** r is what the regions from lo to hi - 1, all of them mergeable in turn, make together. */
  ghost predicate IsRun(s: seq<LayoutRegion>, lo: nat, hi: nat, r: LayoutRegion)
  {
    && lo < hi <= |s|
    && r.targetAddress == s[lo].targetAddress && r.TargetEnd() == s[hi - 1].TargetEnd()
    && r.sourceOffset == s[lo].sourceOffset && r.SourceEnd() == s[hi - 1].SourceEnd()
    && r.permissions == s[hi - 1].permissions && r.alignment == s[lo].alignment
    && r.name == Names(s, lo, hi)
    && forall i {:trigger MergeableAt(s, i)} :: lo <= i < hi - 1 ==> MergeableAt(s, i)
  }

  /** The merged regions are the maximal runs of the first n; run k starts at cuts[k]. */
  ghost predicate Runs(s: seq<LayoutRegion>, n: nat, cuts: seq<nat>, merged: seq<LayoutRegion>)
  {
    && n <= |s| && |cuts| == |merged| + 1 && cuts[0] == 0 && cuts[|merged|] == n
    && (forall k {:trigger merged[k]} :: 0 <= k < |merged| ==> IsRun(s, cuts[k], cuts[k + 1], merged[k]))
    && (forall k {:trigger cuts[k]} :: 0 < k < |merged| ==>
          0 < cuts[k] < |s| && !MergeableAt(s, cuts[k] - 1))
  }

  /** merged are the maximal runs of s. */
  ghost predicate IsMerged(s: seq<LayoutRegion>, merged: seq<LayoutRegion>)
  {
    exists cuts :: Runs(s, |s|, cuts, merged)
  }

  // ----- the loop -----

  /** The tests in front of a merge, on the region that stands for the current run. */
  predicate Contiguous(previous: LayoutRegion, region: LayoutRegion)
  {
    && CheckedAdd(previous.targetAddress, previous.targetSize) == Some(region.targetAddress)
    && CheckedAdd(previous.sourceOffset, previous.sourceSize) == Some(region.sourceOffset)
    && previous.permissions == region.permissions
  }

  /** Whether a run goes on is decided by its last region alone. */
  lemma GuardMeans(s: seq<LayoutRegion>, lo: nat, hi: nat, r: LayoutRegion)
    requires Laid(s) && IsRun(s, lo, hi, r) && hi < |s|
    ensures Contiguous(r, s[hi]) <==> MergeableAt(s, hi - 1)
  {
    assert Sound(s[hi - 1]) && Sound(s[hi]);
  }

  lemma SizesFit(s: seq<LayoutRegion>, lo: nat, hi: nat, r: LayoutRegion)
    requires Laid(s) && IsRun(s, lo, hi, r) && hi < |s| && MergeableAt(s, hi - 1)
    ensures r.targetSize + s[hi].targetSize < TWO64 && r.sourceSize + s[hi].sourceSize < TWO64
  {
    assert Sound(s[hi - 1]) && Sound(s[hi]);
  }

  /** The body of a merge; its test for sizes that overflow never fails. */
  method Absorb(s: seq<LayoutRegion>, ghost lo: nat, hi: nat, previous: LayoutRegion) returns (r: LayoutRegion)
    requires Laid(s) && IsRun(s, lo, hi, previous) && hi < |s| && MergeableAt(s, hi - 1)
    ensures IsRun(s, lo, hi + 1, r)
  {
    SizesFit(s, lo, hi, previous);
    var combinedTarget := CheckedAdd(previous.targetSize, s[hi].targetSize);
    var combinedSource := CheckedAdd(previous.sourceSize, s[hi].sourceSize);
    r := LayoutRegion(previous.sourceOffset, combinedSource.value, previous.targetAddress, combinedTarget.value,
                      previous.alignment, previous.permissions, previous.name + s[hi].name);
  }

  lemma NewRun(s: seq<LayoutRegion>, n: nat, cuts: seq<nat>, merged: seq<LayoutRegion>)
    requires n < |s| && Runs(s, n, cuts, merged) && (n > 0 ==> !MergeableAt(s, n - 1))
    ensures Runs(s, n + 1, cuts + [n + 1], merged + [s[n]])
  {
    assert Names(s, n, n + 1) == [] + s[n].name == s[n].name;
    assert IsRun(s, n, n + 1, s[n]);
    if merged != [] { assert IsRun(s, cuts[|merged| - 1], n, merged[|merged| - 1]); }
    var c, m := cuts + [n + 1], merged + [s[n]];
    forall k | 0 <= k < |m| ensures IsRun(s, c[k], c[k + 1], m[k]) {
      if k < |merged| { assert IsRun(s, cuts[k], cuts[k + 1], merged[k]); }
    }
    forall k | 0 < k < |m| ensures 0 < c[k] < |s| && !MergeableAt(s, c[k] - 1) {
      if k < |merged| { assert c[k] == cuts[k]; } else { assert c[k] == n; }
    }
  }

  lemma LongerRun(s: seq<LayoutRegion>, n: nat, cuts: seq<nat>, merged: seq<LayoutRegion>, r: LayoutRegion)
    requires n < |s| && Runs(s, n, cuts, merged) && merged != [] && IsRun(s, cuts[|merged| - 1], n + 1, r)
    ensures Runs(s, n + 1, cuts[..|merged|] + [n + 1], merged[|merged| - 1 := r])
  {
  }

  /** The merging loop: its result is the maximal runs. */
  method MergeRegions(s: seq<LayoutRegion>) returns (merged: seq<LayoutRegion>)
    requires Laid(s)
    ensures IsMerged(s, merged)
  {
    merged := [];
    ghost var cuts: seq<nat> := [0];
    for i := 0 to |s|
      invariant Runs(s, i, cuts, merged)
    {
      var n := |merged| - 1;
      if n >= 0 {
        assert IsRun(s, cuts[n], cuts[n + 1], merged[n]);
        GuardMeans(s, cuts[n], i, merged[n]);
        if Contiguous(merged[n], s[i]) {
          var wider := Absorb(s, cuts[n], i, merged[n]);
          LongerRun(s, i, cuts, merged, wider);
          merged, cuts := merged[n := wider], cuts[..n + 1] + [i + 1];
          continue;
        }
      }
      NewRun(s, i, cuts, merged);
      merged, cuts := merged + [s[i]], cuts + [i + 1];
    }
  }

  // ----- runs -----

  lemma {:induction false} RunOf(s: seq<LayoutRegion>, n: nat, cuts: seq<nat>, merged: seq<LayoutRegion>, i: nat,
                                 top: nat)
    returns (k: nat)
    requires Runs(s, n, cuts, merged) && top <= |merged| && i < cuts[top]
    ensures k < top && cuts[k] <= i < cuts[k + 1] && IsRun(s, cuts[k], cuts[k + 1], merged[k])
    decreases top
  {
    assert IsRun(s, cuts[top - 1], cuts[top], merged[top - 1]);
    if i >= cuts[top - 1] { k := top - 1; } else { k := RunOf(s, n, cuts, merged, i, top - 1); }
  }

  lemma {:induction false} CutsAscend(s: seq<LayoutRegion>, n: nat, cuts: seq<nat>, merged: seq<LayoutRegion>, j: nat,
                                      k: nat)
    requires Runs(s, n, cuts, merged) && j < k <= |merged|
    ensures cuts[j] < cuts[k] <= n
    decreases |merged| - j
  {
    assert IsRun(s, cuts[j], cuts[j + 1], merged[j]);
    if j + 1 < k { CutsAscend(s, n, cuts, merged, j + 1, k); }
    if k < |merged| { CutsAscend(s, n, cuts, merged, k, |merged|); }
  }

  /** Address minus file offset: how far the file bytes of a region move. */
  function Shift(r: LayoutRegion): int
  {
    r.targetAddress - r.sourceOffset
  }

  /** Along a run each region moves its file bytes at least as far as the one before it: exactly
      as far when that one is full of file bytes, further when it is not. */
  lemma {:induction false} ShiftsGrow(s: seq<LayoutRegion>, lo: nat, hi: nat, r: LayoutRegion, i: nat, j: nat)
    requires Laid(s) && IsRun(s, lo, hi, r) && lo <= i <= j < hi
    ensures Shift(s[i]) <= Shift(s[j]) && s[i].permissions == s[j].permissions == r.permissions
    ensures s[i].targetAddress <= s[j].targetAddress && s[i].sourceOffset <= s[j].sourceOffset
    ensures i < j ==> s[i].TargetEnd() <= s[j].targetAddress && s[i].SourceEnd() <= s[j].sourceOffset
    ensures i < j && s[i].sourceSize < s[i].targetSize ==> Shift(s[i]) < Shift(s[j])
    decreases hi - i
  {
    assert Sound(s[i]) && Sound(s[j]);
    if i < j {
      assert MergeableAt(s, i);
      ShiftsGrow(s, lo, hi, r, i + 1, j);
    } else if j < hi - 1 {
      assert MergeableAt(s, j);
      ShiftsGrow(s, lo, hi, r, j + 1, hi - 1);
    }
  }

  /** A run is sound again, and lies where its first and last regions lie. */
  lemma RunSound(s: seq<LayoutRegion>, lo: nat, hi: nat, r: LayoutRegion)
    requires Laid(s) && IsRun(s, lo, hi, r)
    ensures Sound(r)
  {
    ShiftsGrow(s, lo, hi, r, lo, hi - 1);
    assert Sound(s[lo]) && Sound(s[hi - 1]);
  }

  /** The merged regions are sorted, nonempty and disjoint again. */
  lemma MergedLaid(s: seq<LayoutRegion>, cuts: seq<nat>, merged: seq<LayoutRegion>)
    requires Laid(s) && Runs(s, |s|, cuts, merged)
    ensures Laid(merged)
  {
    forall k | 0 <= k < |merged| ensures Sound(merged[k]) { RunSound(s, cuts[k], cuts[k + 1], merged[k]); }
    forall j, k | 0 <= j < k < |merged| ensures merged[j].TargetEnd() <= merged[k].targetAddress {
      assert IsRun(s, cuts[j], cuts[j + 1], merged[j]) && IsRun(s, cuts[k], cuts[k + 1], merged[k]);
      if j + 1 < k { CutsAscend(s, |s|, cuts, merged, j + 1, k); }
      assert s[cuts[j + 1] - 1].TargetEnd() <= s[cuts[k]].targetAddress;
    }
  }

  /** No two neighbours are left that the guard would let merge. */
  lemma NothingLeftToMerge(s: seq<LayoutRegion>, cuts: seq<nat>, merged: seq<LayoutRegion>, k: nat)
    requires Laid(s) && Runs(s, |s|, cuts, merged) && k + 1 < |merged|
    ensures !MergeableAt(merged, k)
    ensures var left, right := merged[k], merged[k + 1];
            || left.targetAddress + left.targetSize < right.targetAddress
            || left.sourceOffset + left.sourceSize != right.sourceOffset
            || left.permissions != right.permissions
  {
    var lo, cut, hi := cuts[k], cuts[k + 1], cuts[k + 2];
    assert IsRun(s, lo, cut, merged[k]) && IsRun(s, cut, hi, merged[k + 1]);
    ShiftsGrow(s, cut, hi, merged[k + 1], cut, hi - 1);
    assert !MergeableAt(s, cut - 1);
  }

  // ----- what merging preserves: permissions -----

  predicate Grants(r: LayoutRegion, address: int, permissions: Byte)
  {
    r.targetAddress <= address < r.TargetEnd() && r.permissions == permissions
  }

  /** Some region plans to map address with these permissions. */
  predicate PermissionAt(s: seq<LayoutRegion>, address: int, permissions: Byte)
  {
    exists i {:trigger Grants(s[i], address, permissions)} :: 0 <= i < |s| && Grants(s[i], address, permissions)
  }

  lemma {:induction false} RunCovered(s: seq<LayoutRegion>, lo: nat, hi: nat, r: LayoutRegion, address: int, i: nat)
    returns (j: nat)
    requires Laid(s) && IsRun(s, lo, hi, r) && lo <= i < hi && s[i].targetAddress <= address < r.TargetEnd()
    ensures i <= j < hi && s[j].targetAddress <= address < s[j].TargetEnd()
    decreases hi - i
  {
    if address < s[i].TargetEnd() {
      j := i;
    } else {
      assert i < hi - 1 && MergeableAt(s, i);
      j := RunCovered(s, lo, hi, r, address, i + 1);
    }
  }

  lemma GrantedOn(s: seq<LayoutRegion>, cuts: seq<nat>, merged: seq<LayoutRegion>, address: int, permissions: Byte)
    requires Laid(s) && Runs(s, |s|, cuts, merged) && PermissionAt(s, address, permissions)
    ensures PermissionAt(merged, address, permissions)
  {
    var i :| 0 <= i < |s| && Grants(s[i], address, permissions);
    var k := RunOf(s, |s|, cuts, merged, i, |merged|);
    var lo, hi, r := cuts[k], cuts[k + 1], merged[k];
    ShiftsGrow(s, lo, hi, r, lo, i);
    ShiftsGrow(s, lo, hi, r, i, hi - 1);
    assert Grants(merged[k], address, permissions);
  }

  lemma GrantedBack(s: seq<LayoutRegion>, cuts: seq<nat>, merged: seq<LayoutRegion>, address: int, permissions: Byte)
    requires Laid(s) && Runs(s, |s|, cuts, merged) && PermissionAt(merged, address, permissions)
    ensures PermissionAt(s, address, permissions)
  {
    var k :| 0 <= k < |merged| && Grants(merged[k], address, permissions);
    var lo, hi, r := cuts[k], cuts[k + 1], merged[k];
    assert IsRun(s, lo, hi, r);
    var j := RunCovered(s, lo, hi, r, address, lo);
    ShiftsGrow(s, lo, hi, r, j, hi - 1);
    assert Grants(s[j], address, permissions);
  }

  /** Merging leaves the map from addresses to permissions as it was. */
  lemma MergingKeepsPermissions(s: seq<LayoutRegion>, cuts: seq<nat>, merged: seq<LayoutRegion>,
                                address: int, permissions: Byte)
    requires Laid(s) && Runs(s, |s|, cuts, merged)
    ensures PermissionAt(merged, address, permissions) <==> PermissionAt(s, address, permissions)
  {
    if PermissionAt(s, address, permissions) { GrantedOn(s, cuts, merged, address, permissions); }
    if PermissionAt(merged, address, permissions) { GrantedBack(s, cuts, merged, address, permissions); }
  }

  // ----- what merging preserves: totals -----

  function MappedBytes(s: seq<LayoutRegion>, n: nat): nat
    requires n <= |s|
  {
    if n == 0 then 0 else MappedBytes(s, n - 1) + s[n - 1].targetSize
  }

  function FileBytes(s: seq<LayoutRegion>, n: nat): nat
    requires n <= |s|
  {
    if n == 0 then 0 else FileBytes(s, n - 1) + s[n - 1].sourceSize
  }

  lemma {:induction false} RunTotals(s: seq<LayoutRegion>, lo: nat, hi: nat, r: LayoutRegion, i: nat)
    requires IsRun(s, lo, hi, r) && lo < i <= hi
    ensures MappedBytes(s, i) - MappedBytes(s, lo) == s[i - 1].TargetEnd() - s[lo].targetAddress
    ensures FileBytes(s, i) - FileBytes(s, lo) == s[i - 1].SourceEnd() - s[lo].sourceOffset
    decreases i
  {
    if i > lo + 1 {
      RunTotals(s, lo, hi, r, i - 1);
      assert MergeableAt(s, i - 2);
    }
  }

  lemma {:induction false} MergingKeepsTotals(s: seq<LayoutRegion>, n: nat, cuts: seq<nat>, merged: seq<LayoutRegion>,
                                              k: nat)
    requires Runs(s, n, cuts, merged) && k <= |merged| && cuts[k] <= |s|
    ensures MappedBytes(merged, k) == MappedBytes(s, cuts[k]) && FileBytes(merged, k) == FileBytes(s, cuts[k])
  {
    if k > 0 {
      assert IsRun(s, cuts[k - 1], cuts[k], merged[k - 1]);
      MergingKeepsTotals(s, n, cuts, merged, k - 1);
      RunTotals(s, cuts[k - 1], cuts[k], merged[k - 1], cuts[k]);
    }
  }

  // ----- what merging preserves: where file bytes go -----

  /** The file byte at offset goes to address. */
  predicate Carries(r: LayoutRegion, offset: int, address: int)
  {
    r.sourceOffset <= offset < r.SourceEnd() && address - offset == Shift(r)
  }

  predicate FileByteAt(s: seq<LayoutRegion>, offset: int, address: int)
  {
    exists i {:trigger Carries(s[i], offset, address)} :: 0 <= i < |s| && Carries(s[i], offset, address)
  }

  predicate Full(r: LayoutRegion)
  {
    r.sourceSize == r.targetSize
  }

  /** Wherever two neighbours merge, the left one is full of file bytes or the right one has none. */
  predicate GapsLast(s: seq<LayoutRegion>)
  {
    forall i {:trigger MergeableAt(s, i)} :: 0 <= i < |s| - 1 && MergeableAt(s, i) ==>
      Full(s[i]) || s[i + 1].sourceSize == 0
  }

  /** With gaps last, a region with file bytes moves them exactly as far as its run does. */
  lemma {:induction false} RunShift(s: seq<LayoutRegion>, lo: nat, hi: nat, r: LayoutRegion, i: nat)
    requires Laid(s) && GapsLast(s) && IsRun(s, lo, hi, r) && lo <= i < hi && s[i].sourceSize > 0
    ensures Shift(s[i]) == Shift(r)
    decreases i
  {
    if i > lo {
      assert MergeableAt(s, i - 1) && Sound(s[i - 1]);
      RunShift(s, lo, hi, r, i - 1);
    }
  }

  lemma {:induction false} RunFileCovered(s: seq<LayoutRegion>, lo: nat, hi: nat, r: LayoutRegion, offset: int, i: nat)
    returns (j: nat)
    requires Laid(s) && IsRun(s, lo, hi, r) && lo <= i < hi && s[i].sourceOffset <= offset < r.SourceEnd()
    ensures i <= j < hi && s[j].sourceOffset <= offset < s[j].SourceEnd()
    decreases hi - i
  {
    if offset < s[i].SourceEnd() {
      j := i;
    } else {
      assert i < hi - 1 && MergeableAt(s, i);
      j := RunFileCovered(s, lo, hi, r, offset, i + 1);
    }
  }

  lemma CarriedOn(s: seq<LayoutRegion>, cuts: seq<nat>, merged: seq<LayoutRegion>, offset: int, address: int)
    requires Laid(s) && GapsLast(s) && Runs(s, |s|, cuts, merged) && FileByteAt(s, offset, address)
    ensures FileByteAt(merged, offset, address)
  {
    var i :| 0 <= i < |s| && Carries(s[i], offset, address);
    var k := RunOf(s, |s|, cuts, merged, i, |merged|);
    var lo, hi, r := cuts[k], cuts[k + 1], merged[k];
    ShiftsGrow(s, lo, hi, r, lo, i);
    ShiftsGrow(s, lo, hi, r, i, hi - 1);
    RunShift(s, lo, hi, r, i);
    assert Carries(merged[k], offset, address);
  }

  lemma CarriedBack(s: seq<LayoutRegion>, cuts: seq<nat>, merged: seq<LayoutRegion>, offset: int, address: int)
    requires Laid(s) && GapsLast(s) && Runs(s, |s|, cuts, merged) && FileByteAt(merged, offset, address)
    ensures FileByteAt(s, offset, address)
  {
    var k :| 0 <= k < |merged| && Carries(merged[k], offset, address);
    var lo, hi, r := cuts[k], cuts[k + 1], merged[k];
    assert IsRun(s, lo, hi, r);
    var j := RunFileCovered(s, lo, hi, r, offset, lo);
    RunShift(s, lo, hi, r, j);
    assert Carries(s[j], offset, address);
  }

  /** The run that goes on behind a gap moves its file bytes less far than the region there does. */
  lemma GapShift(s: seq<LayoutRegion>, cuts: seq<nat>, merged: seq<LayoutRegion>, i: nat) returns (k: nat)
    requires Laid(s) && Runs(s, |s|, cuts, merged) && i + 1 < |s| && MergeableAt(s, i) && !Full(s[i])
    ensures k < |merged| && Shift(merged[k]) < Shift(s[i + 1])
    ensures merged[k].sourceOffset <= s[i + 1].sourceOffset && s[i + 1].SourceEnd() <= merged[k].SourceEnd()
    ensures merged[k].targetAddress <= s[i + 1].targetAddress && s[i + 1].TargetEnd() <= merged[k].TargetEnd()
  {
    k := RunOf(s, |s|, cuts, merged, i, |merged|);
    var lo, hi := cuts[k], cuts[k + 1];
    assert Sound(s[i]) && i + 1 < hi;
    ShiftsGrow(s, lo, hi, merged[k], lo, i);
    ShiftsGrow(s, lo, hi, merged[k], i, i + 1);
    ShiftsGrow(s, lo, hi, merged[k], i + 1, hi - 1);
  }

  /** Otherwise the first file byte behind some gap ends up at a lower address. */
  lemma GapMisplaces(s: seq<LayoutRegion>, cuts: seq<nat>, merged: seq<LayoutRegion>, i: nat) returns (lower: int)
    requires Laid(s) && Runs(s, |s|, cuts, merged) && i + 1 < |s| && MergeableAt(s, i)
    requires !Full(s[i]) && s[i + 1].sourceSize > 0
    ensures FileByteAt(s, s[i + 1].sourceOffset, s[i + 1].targetAddress)
    ensures !FileByteAt(merged, s[i + 1].sourceOffset, s[i + 1].targetAddress)
    ensures lower < s[i + 1].targetAddress && FileByteAt(merged, s[i + 1].sourceOffset, lower)
  {
    var offset, address := s[i + 1].sourceOffset, s[i + 1].targetAddress;
    assert Carries(s[i + 1], offset, address);
    var k := GapShift(s, cuts, merged, i);
    lower := offset + Shift(merged[k]);
    assert Carries(merged[k], offset, lower);
    MergedLaid(s, cuts, merged);
    forall j | 0 <= j < |merged| ensures !Carries(merged[j], offset, address) {
      assert Sound(merged[j]) && Sound(merged[k]) && Sound(s[i + 1]);
    }
  }

  /** Every file byte goes where it went. */
  ghost predicate SameFileBytes(s: seq<LayoutRegion>, merged: seq<LayoutRegion>)
  {
    forall offset: int, address: int {:trigger FileByteAt(merged, offset, address)} ::
      FileByteAt(merged, offset, address) <==> FileByteAt(s, offset, address)
  }

  /** Exactly when gaps come last does merging leave every file byte where it was planned to go;
      full left neighbours, which the guard does not ask for, are enough. */
  lemma MergingKeepsFileIff(s: seq<LayoutRegion>, cuts: seq<nat>, merged: seq<LayoutRegion>)
    requires Laid(s) && Runs(s, |s|, cuts, merged)
    ensures GapsLast(s) <==> SameFileBytes(s, merged)
  {
    if GapsLast(s) {
      forall offset: int, address: int ensures FileByteAt(merged, offset, address) <==> FileByteAt(s, offset, address) {
        if FileByteAt(s, offset, address) { CarriedOn(s, cuts, merged, offset, address); }
        if FileByteAt(merged, offset, address) { CarriedBack(s, cuts, merged, offset, address); }
      }
    } else {
      var i :| 0 <= i < |s| - 1 && MergeableAt(s, i) && !Full(s[i]) && s[i + 1].sourceSize != 0;
      var lower := GapMisplaces(s, cuts, merged, i);
    }
  }
}
