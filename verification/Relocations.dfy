/** RelocationProcessor of src/loader.cc. */
module Relocations {
  import opened AddressSpaces
  import opened Base
  import opened Endian
  import opened Image
  import opened Regions

  /** resolve: the address of an import, by library, name and ordinal. */
  type Resolver = (Text, Text, U64) -> Option<U64>

  function Wrapped(x: int): U64
  {
    x % TWO64
  }

  function WidthOf(rel: Relocation): Byte
  {
    if rel.kind.High16? || rel.kind.Low16? then 2
    else if rel.width != 0 then rel.width
    else if rel.kind.Absolute64? || rel.kind.Relative64? then 8
    else 4
  }

  /** What the relocation's symbol stands for; 0 without one. */
  function SymbolValue(rel: Relocation, image: BinaryImage, bias: U64, resolver: Option<Resolver>): Result<U64>
  {
    if rel.symbolIndex == 0 then Ok(0)
    else
      match image.SymbolAt(rel.symbolIndex)
      case None => Err(InvalidSymbol)
      case Some(symbol) =>
        if symbol.binding.ImportSymbol? && resolver.Some? then
          match resolver.value(symbol.library, symbol.name, 0)
          case None => Err(UnresolvedImport)
          case Some(v) => Ok(v)
        else
          match CheckedAdd(symbol.value, bias)
          case None => Err(AddressOverflow)
          case Some(v) => Ok(v)
  }

  /** The formula of each kind, in 64-bit arithmetic. */
  function KindValue(rel: Relocation, symbol: U64, bias: U64, target: U64): Result<U64>
    requires !rel.kind.NoRelocation?
  {
    match rel.kind
    case Relative32 => Ok(Wrapped(bias + rel.addend))
    case Relative64 => Ok(Wrapped(bias + rel.addend))
    case PcRelative32 => Ok(Wrapped(symbol + rel.addend - target))
    case Absolute32 => Ok(Wrapped(symbol + rel.addend))
    case Absolute64 => Ok(Wrapped(symbol + rel.addend))
    case High16 => Ok(Wrapped(symbol + rel.addend) / 0x1_0000)
    case Low16 => Ok(Wrapped(symbol + rel.addend) % 0x1_0000)
    case _ => Err(InvalidRelocation)
  }

  /** A patch: value, in width bytes, at target. */
  datatype Patch = Patch(target: U64, width: Byte, value: U64)

  /** What a relocation comes to: an error, nothing for the kind none, or a patch. */
  type Outcome = Result<Option<Patch>>

  predicate Fits(x: Outcome)
  {
    x.Ok? && x.value.Some? && x.value.value.width < 8 ==> x.value.value.value < Pow256(x.value.value.width)
  }

  function PatchOf(rel: Relocation, image: BinaryImage, bias: U64, resolver: Option<Resolver>): (r: Outcome)
    ensures Fits(r)
  {
    match CheckedAdd(rel.offset, bias)
    case None => Err(AddressOverflow)
    case Some(target) =>
      match SymbolValue(rel, image, bias, resolver)
      case Err(code) => Err(code)
      case Ok(symbol) =>
        if rel.kind.NoRelocation? then Ok(None)
        else
          match KindValue(rel, symbol, bias, target)
          case Err(code) => Err(code)
          case Ok(value) =>
            if WidthOf(rel) < 8 && value >= Pow256(WidthOf(rel)) then Err(AddressOverflow)
            else Ok(Some(Patch(target, WidthOf(rel), value)))
  }

  /** Writing a patch: it needs a known width and a region that covers it. */
  ghost function PatchVerdict(m: RegionMap, patch: Option<Patch>): Status
  {
    match patch
    case None => Done
    case Some(p) =>
      if !IntegerWidth(p.width) then Failed(InvalidRelocation) else AccessVerdict(m, p.target, p.width, 0)
  }

  function Patched(m: RegionMap, patch: Option<Patch>, order: ByteOrder): RegionMap
    requires WellFormed(m)
  {
    match patch
    case None => m
    case Some(p) => WriteAt(m, p.target, Encode(p.value, p.width, order))
  }

  lemma PatchedKeeps(m: RegionMap, patch: Option<Patch>, order: ByteOrder)
    requires WellFormed(m)
    ensures WellFormed(Patched(m, patch, order)) && SameShape(m, Patched(m, patch, order))
    ensures TotalSize(Patched(m, patch, order)) == TotalSize(m)
  {
    if patch.Some? { WriteKeeps(m, patch.value.target, Encode(patch.value.value, patch.value.width, order)); }
  }

  // ----- one relocation -----

  /** apply_one. */
  method ApplyOne(rel: Relocation, image: BinaryImage, memory: AddressSpace, bias: U64, resolver: Option<Resolver>)
    returns (s: Status)
    requires memory.Valid()
    modifies memory`regions
    ensures memory.Valid()
    ensures var patch := PatchOf(rel, image, bias, resolver);
            if patch.Err? then s == Failed(patch.code) && memory.regions == old(memory.regions)
            else
              && s == PatchVerdict(old(memory.regions), patch.value)
              && memory.regions == if s.Done? then Patched(old(memory.regions), patch.value, image.byteOrder)
                                   else old(memory.regions)
  {
    var target := CheckedAdd(rel.offset, bias);
    if target.None? { return Failed(AddressOverflow); }
    var symbol := SymbolValue(rel, image, bias, resolver);
    if symbol.Err? { return Failed(symbol.code); }
    if rel.kind.NoRelocation? { return Done; }
    var value := KindValue(rel, symbol.value, bias, target.value);
    if value.Err? { return Failed(value.code); }
    var width := WidthOf(rel);
    if width < 8 && value.value >= Pow256(width) { return Failed(AddressOverflow); }
    s := memory.WriteInteger(target.value, width, image.byteOrder, value.value, true);
  }

  /** p stands in m: its bytes there are its value, or the low part of it that its width holds. */
  ghost predicate Stands(m: RegionMap, p: Patch, order: ByteOrder)
  {
    && WellFormed(m) && 0 < p.width && Covering(m, p.target, p.width).Some?
    && Endian.Decode(ReadAt(m, p.target, p.width), order) == p.value % Pow256(p.width)
  }

  /** A patch that was applied reads back, and changes its own bytes alone. */
  lemma PatchReadsBack(m: RegionMap, p: Patch, order: ByteOrder)
    requires WellFormed(m) && PatchVerdict(m, Some(p)).Done?
    ensures Stands(Patched(m, Some(p), order), p, order)
    ensures Flat(Patched(m, Some(p), order)) == Store(Flat(m), p.target, Encode(p.value, p.width, order))
  {
    IntegerRoundTrip(m, p.target, p.width, order, p.value);
    WriteIsStore(m, p.target, Encode(p.value, p.width, order));
  }

  /** The value of a relocation always fits its width, so all of it reads back. */
  lemma RelocationReadsBack(m: RegionMap, rel: Relocation, image: BinaryImage, bias: U64, resolver: Option<Resolver>)
    requires var x := PatchOf(rel, image, bias, resolver);
             x.Ok? && x.value.Some? && IntegerWidth(x.value.value.width) && Stands(m, x.value.value, image.byteOrder)
    ensures var p := PatchOf(rel, image, bias, resolver).value.value;
            Endian.Decode(ReadAt(m, p.target, p.width), image.byteOrder) == p.value
  {
    WholeValue(PatchOf(rel, image, bias, resolver).value.value);
  }

  lemma WholeValue(p: Patch)
    requires IntegerWidth(p.width) && Fits(Ok(Some(p)))
    ensures p.value % Pow256(p.width) == p.value
  {
    if p.width == 8 { Pow256Values(); }
    UniqueRemainder(p.value, Pow256(p.width), 0, p.value);
  }

  // ----- all relocations -----

  /** What an outcome comes to on memory m: its own error, or the verdict on writing its patch. */
  ghost function OutcomeVerdict(m: RegionMap, x: Outcome): Status
  {
    match x
    case Err(code) => Failed(code)
    case Ok(patch) => PatchVerdict(m, patch)
  }

  ghost predicate Applies(m: RegionMap, x: Outcome)
  {
    OutcomeVerdict(m, x).Done?
  }

  /** What the outcomes from number i on come to: the first that does not apply decides. */
  ghost function VerdictFrom(m: RegionMap, outcomes: seq<Outcome>, i: nat): Status
    requires i <= |outcomes|
    decreases |outcomes| - i
  {
    if i == |outcomes| then Done
    else if Applies(m, outcomes[i]) then VerdictFrom(m, outcomes, i + 1)
    else OutcomeVerdict(m, outcomes[i])
  }

  /** The first n outcomes apply to m. */
  ghost predicate AllApply(m: RegionMap, outcomes: seq<Outcome>, n: nat)
  {
    n <= |outcomes| && forall i {:trigger Applies(m, outcomes[i])} :: 0 <= i < n ==> Applies(m, outcomes[i])
  }

  lemma {:induction false} VerdictBehind(m: RegionMap, outcomes: seq<Outcome>, n: nat)
    requires AllApply(m, outcomes, n)
    ensures VerdictFrom(m, outcomes, 0) == VerdictFrom(m, outcomes, n)
  {
    if n > 0 {
      VerdictBehind(m, outcomes, n - 1);
      assert Applies(m, outcomes[n - 1]);
    }
  }

  /** Memory number i + 1 is memory number i with patch i written. */
  ghost predicate StepAt(outcomes: seq<Outcome>, order: ByteOrder, trace: seq<RegionMap>, i: nat)
    requires i < |outcomes| && i + 1 < |trace|
  {
    outcomes[i].Ok? && WellFormed(trace[i]) && trace[i + 1] == Patched(trace[i], outcomes[i].value, order)
  }

  /** Every region stays in place with its permissions, and every byte vector keeps its size. */
  ghost predicate Kept(m: RegionMap, n: RegionMap)
  {
    WellFormed(n) && SameShape(m, n) && TotalSize(n) == TotalSize(m)
  }

  /** The memories a run goes through, from m on. */
  ghost predicate Run(m: RegionMap, outcomes: seq<Outcome>, order: ByteOrder, trace: seq<RegionMap>)
  {
    && 0 < |trace| <= |outcomes| + 1 && trace[0] == m
    && (forall i {:trigger StepAt(outcomes, order, trace, i)} :: 0 <= i < |trace| - 1 ==>
          StepAt(outcomes, order, trace, i))
    && (forall i {:trigger Kept(m, trace[i])} :: 0 <= i < |trace| ==> Kept(m, trace[i]))
  }

  /** Writing the outcomes in order, up to the first that does not apply, gives n. */
  ghost predicate RunsTo(m: RegionMap, outcomes: seq<Outcome>, order: ByteOrder, n: RegionMap)
  {
    exists trace :: RunsThrough(m, outcomes, order, trace) && trace[|trace| - 1] == n
  }

  ghost predicate RunsThrough(m: RegionMap, outcomes: seq<Outcome>, order: ByteOrder, trace: seq<RegionMap>)
  {
    && Run(m, outcomes, order, trace) && AllApply(m, outcomes, |trace| - 1)
    && (|trace| <= |outcomes| ==> !Applies(m, outcomes[|trace| - 1]))
  }

  /** The outcomes written so far all apply to m. */
  ghost predicate Written(m: RegionMap, outcomes: seq<Outcome>, order: ByteOrder, trace: seq<RegionMap>)
  {
    Run(m, outcomes, order, trace) && AllApply(m, outcomes, |trace| - 1)
  }

  lemma RunStarts(m: RegionMap, outcomes: seq<Outcome>, order: ByteOrder)
    requires WellFormed(m)
    ensures Written(m, outcomes, order, [m])
  {
  }

  /** One turn over the outcomes: it goes on, or the run and its verdict are complete. */
  lemma TurnTaken(m: RegionMap, outcomes: seq<Outcome>, order: ByteOrder, trace: seq<RegionMap>, s: Status,
                  next: RegionMap)
    requires Written(m, outcomes, order, trace) && |trace| <= |outcomes| && WellFormed(trace[|trace| - 1])
    requires s == OutcomeVerdict(trace[|trace| - 1], outcomes[|trace| - 1])
    requires s.Done? ==> next == Patched(trace[|trace| - 1], outcomes[|trace| - 1].value, order)
    ensures s.Done? ==> Written(m, outcomes, order, trace + [next])
    ensures s.Failed? ==> RunsThrough(m, outcomes, order, trace) && s == VerdictFrom(m, outcomes, 0)
  {
    var i := |trace| - 1;
    assert Kept(m, trace[i]);
    VerdictAnyTime(m, trace[i], outcomes[i]);
    VerdictBehind(m, outcomes, i);
    if s.Done? { RunGoesOn(m, outcomes, order, trace); }
  }

  lemma AllTaken(m: RegionMap, outcomes: seq<Outcome>, order: ByteOrder, trace: seq<RegionMap>)
    requires Written(m, outcomes, order, trace) && |trace| == |outcomes| + 1
    ensures RunsThrough(m, outcomes, order, trace) && VerdictFrom(m, outcomes, 0) == Done
  {
    VerdictBehind(m, outcomes, |outcomes|);
  }

  lemma RunGoesOn(m: RegionMap, outcomes: seq<Outcome>, order: ByteOrder, trace: seq<RegionMap>)
    requires Run(m, outcomes, order, trace) && |trace| <= |outcomes| && outcomes[|trace| - 1].Ok?
    ensures WellFormed(trace[|trace| - 1])
    ensures Run(m, outcomes, order, trace + [Patched(trace[|trace| - 1], outcomes[|trace| - 1].value, order)])
  {
    var k := |trace| - 1;
    assert Kept(m, trace[k]);
    var next := Patched(trace[k], outcomes[k].value, order);
    PatchedKeeps(trace[k], outcomes[k].value, order);
    SameShapeTransitive(m, trace[k], next);
    var longer := trace + [next];
    forall i | 0 <= i < |longer| - 1 ensures StepAt(outcomes, order, longer, i) {
      if i < k { assert StepAt(outcomes, order, trace, i); }
    }
    forall i | 0 <= i < |longer| ensures Kept(m, longer[i]) {
      if i <= k { assert Kept(m, trace[i]); }
    }
  }

  ghost predicate OutcomeIs(outcomes: seq<Outcome>, image: BinaryImage, bias: U64, resolver: Option<Resolver>, i: nat)
    requires i < |outcomes| == |image.relocations|
  {
    outcomes[i] == PatchOf(image.relocations[i], image, bias, resolver)
  }

  /** The outcomes of the image's relocations. */
  ghost predicate OutcomesOf(outcomes: seq<Outcome>, image: BinaryImage, bias: U64, resolver: Option<Resolver>)
  {
    |outcomes| == |image.relocations|
    && forall i {:trigger OutcomeIs(outcomes, image, bias, resolver, i)} :: 0 <= i < |outcomes| ==>
         OutcomeIs(outcomes, image, bias, resolver, i)
  }

  method ApplyNext(image: BinaryImage, memory: AddressSpace, bias: U64, resolver: Option<Resolver>,
                   ghost outcomes: seq<Outcome>, i: nat)
    returns (s: Status)
    requires memory.Valid() && OutcomesOf(outcomes, image, bias, resolver) && i < |image.relocations|
    modifies memory`regions
    ensures memory.Valid()
    ensures s == OutcomeVerdict(old(memory.regions), outcomes[i])
    ensures memory.regions == if s.Done? then Patched(old(memory.regions), outcomes[i].value, image.byteOrder)
                              else old(memory.regions)
  {
    assert OutcomeIs(outcomes, image, bias, resolver, i);
    s := ApplyOne(image.relocations[i], image, memory, bias, resolver);
  }

  /** One turn of the loop in apply. */
  method ApplyTurn(image: BinaryImage, memory: AddressSpace, bias: U64, resolver: Option<Resolver>,
                   ghost outcomes: seq<Outcome>, i: nat, ghost start: RegionMap, ghost trace: seq<RegionMap>)
    returns (s: Status)
    requires memory.Valid() && OutcomesOf(outcomes, image, bias, resolver) && i < |image.relocations|
    requires Written(start, outcomes, image.byteOrder, trace) && |trace| == i + 1 && memory.regions == trace[i]
    modifies memory`regions
    ensures memory.Valid()
    ensures s.Done? ==> Written(start, outcomes, image.byteOrder, trace + [memory.regions])
    ensures s.Failed? ==>
              && memory.regions == trace[i] && RunsThrough(start, outcomes, image.byteOrder, trace)
              && s == VerdictFrom(start, outcomes, 0)
  {
    s := ApplyNext(image, memory, bias, resolver, outcomes, i);
    TurnTaken(start, outcomes, image.byteOrder, trace, s, memory.regions);
  }

  /** apply comes to the error of the first relocation that does not apply to m. */
  ghost function RelocationVerdict(limits: Limits, image: BinaryImage, bias: U64, resolver: Option<Resolver>,
                                   m: RegionMap): Status
  {
    if |image.relocations| > limits.maxRelocations then Failed(ResourceLimit)
    else VerdictFrom(m, OutcomesFor(image, bias, resolver), 0)
  }

  /** apply: all relocations in order, up to the first that does not apply. Whether one applies
      does not depend on the ones before it, since those keep every region in place. */
  method Apply(limits: Limits, image: BinaryImage, memory: AddressSpace, bias: U64, resolver: Option<Resolver>)
    returns (s: Status, applied: nat, ghost outcomes: seq<Outcome>, ghost trace: seq<RegionMap>)
    requires memory.Valid()
    modifies memory`regions
    ensures memory.Valid() && outcomes == OutcomesFor(image, bias, resolver)
    ensures s == RelocationVerdict(limits, image, bias, resolver, old(memory.regions))
    ensures Run(old(memory.regions), outcomes, image.byteOrder, trace) && |trace| == applied + 1
    ensures memory.regions == trace[applied]
    ensures if |outcomes| > limits.maxRelocations then applied == 0
            else RunsThrough(old(memory.regions), outcomes, image.byteOrder, trace)
    ensures s.Done? ==> applied == |outcomes|
  {
    outcomes := OutcomesFor(image, bias, resolver);
    ghost var start := memory.regions;
    applied, trace := 0, [start];
    RunStarts(start, outcomes, image.byteOrder);
    if |image.relocations| > limits.maxRelocations { return Failed(ResourceLimit), 0, outcomes, trace; }
    while applied < |image.relocations|
      invariant memory.Valid() && |trace| == applied + 1 && memory.regions == trace[applied]
      invariant Written(start, outcomes, image.byteOrder, trace)
    {
      s := ApplyTurn(image, memory, bias, resolver, outcomes, applied, start, trace);
      if s.Failed? { return s, applied, outcomes, trace; }
      trace := trace + [memory.regions];
      applied := applied + 1;
    }
    AllTaken(start, outcomes, image.byteOrder, trace);
    s := Done;
  }

  ghost function OutcomesFor(image: BinaryImage, bias: U64, resolver: Option<Resolver>): (r: seq<Outcome>)
    ensures OutcomesOf(r, image, bias, resolver)
  {
    seq(|image.relocations|, i requires 0 <= i < |image.relocations| =>
                               PatchOf(image.relocations[i], image, bias, resolver))
  }

  lemma {:induction false} VerdictsMeet(m: RegionMap, n: RegionMap, outcomes: seq<Outcome>, i: nat)
    requires SameShape(m, n) && i <= |outcomes|
    ensures VerdictFrom(m, outcomes, i) == VerdictFrom(n, outcomes, i)
    decreases |outcomes| - i
  {
    if i < |outcomes| {
      VerdictAnyTime(m, n, outcomes[i]);
      VerdictsMeet(m, n, outcomes, i + 1);
    }
  }

  lemma VerdictAnyTime(m: RegionMap, n: RegionMap, x: Outcome)
    requires SameShape(m, n)
    ensures OutcomeVerdict(m, x) == OutcomeVerdict(n, x)
  {
    if x.Ok? && x.value.Some? {
      var p := x.value.value;
      ShapeCovers(m, n, p.target, p.width);
      if Covering(m, p.target, p.width).Some? {
        var k := Covering(m, p.target, p.width).value;
        assert m[k].(bytes := []) == n[k].(bytes := []);
      }
    }
  }

  // ----- what later relocations leave alone -----

  ghost predicate Touches(x: Outcome, a: int)
  {
    x.Ok? && x.value.Some? && InRange(a, x.value.value.target, x.value.value.width)
  }

  lemma OnePatchUntouched(m: RegionMap, x: Outcome, order: ByteOrder, a: int)
    requires WellFormed(m) && x.Ok? && Applies(m, x) && !Touches(x, a)
    ensures WellFormed(Patched(m, x.value, order)) && SameByte(Flat(m), Flat(Patched(m, x.value, order)), a)
  {
    if x.value.Some? { PatchReadsBack(m, x.value.value, order); }
  }

  /** Outcome i applies to m and does not touch byte a. */
  ghost predicate Avoids(m: RegionMap, outcomes: seq<Outcome>, i: nat, a: int)
    requires i < |outcomes|
  {
    Applies(m, outcomes[i]) && !Touches(outcomes[i], a)
  }

  lemma StepUntouched(m: RegionMap, outcomes: seq<Outcome>, order: ByteOrder, trace: seq<RegionMap>, i: nat, a: int)
    requires Run(m, outcomes, order, trace) && i + 1 < |trace| && Avoids(m, outcomes, i, a)
    ensures WellFormed(trace[i]) && WellFormed(trace[i + 1]) && SameByte(Flat(trace[i]), Flat(trace[i + 1]), a)
  {
    assert StepAt(outcomes, order, trace, i) && Kept(m, trace[i]);
    VerdictAnyTime(m, trace[i], outcomes[i]);
    OnePatchUntouched(trace[i], outcomes[i], order, a);
  }

  lemma SameByteChain(f: FlatMemory, g: FlatMemory, h: FlatMemory, a: int)
    requires SameByte(f, g, a) && SameByte(g, h, a)
    ensures SameByte(f, h, a)
  {
  }

  lemma OneMoreUntouched(m: RegionMap, outcomes: seq<Outcome>, order: ByteOrder, trace: seq<RegionMap>,
                         f: FlatMemory, i: nat, a: int)
    requires Run(m, outcomes, order, trace) && i + 1 < |trace| && Avoids(m, outcomes, i, a)
    requires WellFormed(trace[i]) && SameByte(f, Flat(trace[i]), a)
    ensures WellFormed(trace[i + 1]) && SameByte(f, Flat(trace[i + 1]), a)
  {
    StepUntouched(m, outcomes, order, trace, i, a);
    SameByteChain(f, Flat(trace[i]), Flat(trace[i + 1]), a);
  }

  /** A byte that outcomes k to n - 1 do not touch is the same before and after them. */
  lemma {:induction false} UntouchedByte(m: RegionMap, outcomes: seq<Outcome>, order: ByteOrder, trace: seq<RegionMap>,
                                         k: nat, n: nat, a: int)
    requires Run(m, outcomes, order, trace) && k <= n < |trace|
    requires forall i {:trigger Avoids(m, outcomes, i, a)} :: k <= i < n ==> Avoids(m, outcomes, i, a)
    ensures WellFormed(trace[k]) && WellFormed(trace[n]) && SameByte(Flat(trace[k]), Flat(trace[n]), a)
    decreases n
  {
    if k < n {
      UntouchedByte(m, outcomes, order, trace, k, n - 1, a);
      assert Avoids(m, outcomes, n - 1, a);
      OneMoreUntouched(m, outcomes, order, trace, Flat(trace[k]), n - 1, a);
    } else {
      assert Kept(m, trace[k]);
    }
  }

  lemma PatchStands(m: RegionMap, outcomes: seq<Outcome>, order: ByteOrder, trace: seq<RegionMap>, k: nat)
    requires Run(m, outcomes, order, trace) && k + 1 < |trace| && Applies(m, outcomes[k])
    requires outcomes[k].value.Some?
    ensures Stands(trace[k + 1], outcomes[k].value.value, order)
  {
    assert Kept(m, trace[k]) && StepAt(outcomes, order, trace, k);
    VerdictAnyTime(m, trace[k], outcomes[k]);
    PatchReadsBack(trace[k], outcomes[k].value.value, order);
  }

  /** A patch stands wherever its bytes are the same. */
  lemma StandsOn(m: RegionMap, n: RegionMap, p: Patch, order: ByteOrder)
    requires Stands(m, p, order) && WellFormed(n) && SameShape(m, n)
    requires forall a {:trigger InRange(a, p.target, p.width)} ::
               InRange(a, p.target, p.width) ==> SameByte(Flat(m), Flat(n), a)
    ensures Stands(n, p, order)
  {
    ShapeCovers(m, n, p.target, p.width);
    ReadIsFetch(m, p.target, p.width);
    ReadIsFetch(n, p.target, p.width);
    SameFetch(Flat(m), Flat(n), p.target, p.width);
  }

  lemma SameFetch(f: FlatMemory, g: FlatMemory, start: int, length: nat)
    requires forall a :: InRange(a, start, length) ==> SameByte(f, g, a)
    ensures Fetch(f, start, length) == Fetch(g, start, length)
  {
    forall i | 0 <= i < length ensures Fetch(f, start, length)[i] == Fetch(g, start, length)[i] {
      assert InRange(start + i, start, length);
    }
  }

  /** None of the outcomes k to n - 1 touches a byte of patch p. */
  ghost predicate Spared(p: Patch, outcomes: seq<Outcome>, k: nat, n: nat)
    requires n <= |outcomes|
  {
    forall i, a {:trigger Touches(outcomes[i], a)} ::
      k <= i < n && InRange(a, p.target, p.width) ==> !Touches(outcomes[i], a)
  }

  /** A patch that stands after k outcomes, and is spared by the rest of the run, stands at its end. */
  lemma SparedStands(m: RegionMap, outcomes: seq<Outcome>, order: ByteOrder, trace: seq<RegionMap>, k: nat, p: Patch)
    requires Run(m, outcomes, order, trace) && k < |trace| && AllApply(m, outcomes, |trace| - 1)
    requires Stands(trace[k], p, order) && Spared(p, outcomes, k, |trace| - 1)
    ensures Stands(trace[|trace| - 1], p, order)
  {
    var end := |trace| - 1;
    assert Kept(m, trace[k]) && Kept(m, trace[end]);
    SameShapeSymmetric(m, trace[k]);
    SameShapeTransitive(trace[k], m, trace[end]);
    forall a {:trigger InRange(a, p.target, p.width)} | InRange(a, p.target, p.width)
      ensures SameByte(Flat(trace[k]), Flat(trace[end]), a)
    {
      AvoidedByte(m, outcomes, k, end, p, a);
      UntouchedByte(m, outcomes, order, trace, k, end, a);
    }
    StandsOn(trace[k], trace[end], p, order);
  }

  lemma AvoidedByte(m: RegionMap, outcomes: seq<Outcome>, k: nat, n: nat, p: Patch, a: int)
    requires AllApply(m, outcomes, n) && Spared(p, outcomes, k, n) && InRange(a, p.target, p.width)
    ensures forall i {:trigger Avoids(m, outcomes, i, a)} :: k <= i < n ==> Avoids(m, outcomes, i, a)
  {
    forall i | k <= i < n ensures Avoids(m, outcomes, i, a) {
      assert Applies(m, outcomes[i]) && !Touches(outcomes[i], a);
    }
  }

  /** A patch that nothing later in the run overlaps stands at its end. */
  lemma PatchSurvives(m: RegionMap, outcomes: seq<Outcome>, order: ByteOrder, trace: seq<RegionMap>, k: nat)
    requires Run(m, outcomes, order, trace) && k + 1 < |trace| && AllApply(m, outcomes, |trace| - 1)
    requires outcomes[k].Ok? && outcomes[k].value.Some?
    requires Spared(outcomes[k].value.value, outcomes, k + 1, |trace| - 1)
    ensures Stands(trace[|trace| - 1], outcomes[k].value.value, order)
  {
    assert Applies(m, outcomes[k]);
    PatchStands(m, outcomes, order, trace, k);
    SparedStands(m, outcomes, order, trace, k + 1, outcomes[k].value.value);
  }

  // ----- whole runs -----

  lemma {:induction false} DoneMeansAll(m: RegionMap, outcomes: seq<Outcome>, n: nat)
    requires n <= |outcomes| && VerdictFrom(m, outcomes, 0).Done?
    ensures AllApply(m, outcomes, n)
  {
    if n > 0 {
      DoneMeansAll(m, outcomes, n - 1);
      VerdictBehind(m, outcomes, n - 1);
    }
  }

  /** When all apply, the run is complete. */
  lemma WholeRun(m: RegionMap, outcomes: seq<Outcome>, order: ByteOrder, n: RegionMap) returns (trace: seq<RegionMap>)
    requires RunsTo(m, outcomes, order, n) && VerdictFrom(m, outcomes, 0).Done?
    ensures RunsThrough(m, outcomes, order, trace) && |trace| == |outcomes| + 1 && trace[|outcomes|] == n
  {
    trace :| RunsThrough(m, outcomes, order, trace) && trace[|trace| - 1] == n;
    DoneMeansAll(m, outcomes, |outcomes|);
  }

  /** Each of its patches stands at the end unless a later one overlaps it. */
  lemma StandsAfter(m: RegionMap, outcomes: seq<Outcome>, order: ByteOrder, n: RegionMap, k: nat)
    requires RunsTo(m, outcomes, order, n) && VerdictFrom(m, outcomes, 0).Done?
    requires k < |outcomes| && outcomes[k].Ok? && outcomes[k].value.Some?
    requires Spared(outcomes[k].value.value, outcomes, k + 1, |outcomes|)
    ensures Stands(n, outcomes[k].value.value, order)
  {
    var trace := WholeRun(m, outcomes, order, n);
    PatchSurvives(m, outcomes, order, trace, k);
  }

  /** What stood before it stands behind it unless one of its patches overlaps it. */
  lemma StandsThrough(m: RegionMap, outcomes: seq<Outcome>, order: ByteOrder, n: RegionMap, p: Patch)
    requires RunsTo(m, outcomes, order, n) && VerdictFrom(m, outcomes, 0).Done?
    requires Stands(m, p, order) && Spared(p, outcomes, 0, |outcomes|)
    ensures Stands(n, p, order)
  {
    var trace := WholeRun(m, outcomes, order, n);
    SparedStands(m, outcomes, order, trace, 0, p);
  }
}
