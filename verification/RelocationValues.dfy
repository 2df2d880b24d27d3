/** What relocations and imports put into memory, from the fields of their records. */
module RelocationValues {
  import opened AddressSpaces
  import opened Base
  import opened Endian
  import opened Image
  import opened Loader
  import opened Regions
  import opened Relocations

  // ----- one relocation -----

  /** What the symbol of a relocation stands for: nothing without a symbol, what the resolver says for an
      import when there is one, and otherwise the symbol's value, displaced. */
  ghost predicate StandsFor(rel: Relocation, image: BinaryImage, bias: U64, resolver: Option<Resolver>, v: U64)
  {
    if rel.symbolIndex == 0 then v == 0
    else
      && rel.symbolIndex < |image.symbols|
      && var symbol := image.symbols[rel.symbolIndex];
         if symbol.binding == ImportSymbol && resolver.Some?
         then resolver.value(symbol.library, symbol.name, 0) == Some(v)
         else symbol.value + bias == v
  }

  /** a and b are the same 64-bit number. */
  predicate Same64(a: int, b: int)
  {
    (a - b) % TWO64 == 0
  }

  /** value is what a relocation of this kind is to put at target, for a symbol that stands for v. */
  predicate KindLaw(kind: RelocationKind, value: int, v: int, addend: int, bias: int, target: int)
  {
    match kind
    case Absolute32 | Absolute64 => Same64(value, v + addend)
    case Relative32 | Relative64 => Same64(value - addend, bias)
    case PcRelative32 => Same64(value + target, v + addend)
    case High16 => Same64(value * 0x1_0000 + (v + addend) % 0x1_0000, v + addend)
    case Low16 => value == (v + addend) % 0x1_0000
    case _ => false
  }

  /** The two halves make up the whole. */
  lemma HalvesMakeSum(high: int, low: int, v: int, addend: int, bias: int, target: int, next: int)
    requires KindLaw(High16, high, v, addend, bias, target) && KindLaw(Low16, low, v, addend, bias, next)
    ensures Same64(high * 0x1_0000 + low, v + addend)
  {
  }

  /** A relocation writes this many bytes: two of a half, else as many as it says, and if it does not say, as
      many as its kind has bits for. */
  predicate HasWidth(rel: Relocation, width: nat)
  {
    && (rel.kind == High16 || rel.kind == Low16 ==> width == 2)
    && (rel.kind != High16 && rel.kind != Low16 ==>
          && (rel.width != 0 ==> width == rel.width)
          && (rel.width == 0 && (rel.kind == Absolute64 || rel.kind == Relative64) ==> width == 8)
          && (rel.width == 0 && rel.kind != Absolute64 && rel.kind != Relative64 ==> width == 4))
  }

  // ----- the formulas -----

  lemma WrappedIs(value: U64, x: int)
    ensures Same64(value, x) <==> value == Wrapped(x)
  {
    DivMod(x, TWO64);
    if value == Wrapped(x) {
      assert value - x == -(x / TWO64) * TWO64;
      MultipleOf(-(x / TWO64), TWO64);
    }
    if Same64(value, x) {
      DivMod(value - x, TWO64);
      var q := (value - x) / TWO64;
      UniqueRemainder(x, TWO64, -q, value);
    }
  }

  lemma SameMoved(a: int, b: int, c: int)
    ensures Same64(a + c, b) <==> Same64(a, b - c)
  {
  }

  /** The halves of a 64-bit sum. */
  lemma Halves(s: int)
    ensures Wrapped(s) % 0x1_0000 == s % 0x1_0000
  {
    DivMod(s, TWO64);
    DivMod(s, 0x1_0000);
    DivMod(Wrapped(s), 0x1_0000);
    var q := s / TWO64 * 0x1_0000_0000_0000;
    assert s == (q + Wrapped(s) / 0x1_0000) * 0x1_0000 + Wrapped(s) % 0x1_0000;
    UniqueRemainder(s, 0x1_0000, q + Wrapped(s) / 0x1_0000, Wrapped(s) % 0x1_0000);
  }

  lemma HighHalf(value: U64, s: int)
    requires value < 0x1_0000_0000_0000
    ensures Same64(value * 0x1_0000 + s % 0x1_0000, s) <==> value == Wrapped(s) / 0x1_0000
  {
    Halves(s);
    DivMod(Wrapped(s), 0x1_0000);
    WrappedIs(value * 0x1_0000 + s % 0x1_0000, s);
    if value * 0x1_0000 + s % 0x1_0000 == Wrapped(s) { UniqueRemainder(Wrapped(s), 0x1_0000, value, s % 0x1_0000); }
  }

  predicate Supported(kind: RelocationKind)
  {
    kind != NoRelocation && kind != GotRelative && kind != PltRelative
  }

  lemma KindMeans(rel: Relocation, v: U64, bias: U64, target: U64, value: U64)
    requires rel.kind != NoRelocation
    ensures KindValue(rel, v, bias, target).Ok? <==> Supported(rel.kind)
    ensures KindValue(rel, v, bias, target).Err? ==> KindValue(rel, v, bias, target).code == InvalidRelocation
    ensures KindValue(rel, v, bias, target) == Ok(value) ==> KindLaw(rel.kind, value, v, rel.addend, bias, target)
    ensures rel.kind != High16 || value < 0x1_0000_0000_0000 ==>
              (KindLaw(rel.kind, value, v, rel.addend, bias, target) ==>
                 KindValue(rel, v, bias, target) == Ok(value))
  {
    var s := v + rel.addend;
    match rel.kind {
      case Absolute32 | Absolute64 => WrappedIs(value, s);
      case Relative32 | Relative64 =>
        WrappedIs(value, bias + rel.addend);
        SameMoved(value, bias, 0 - rel.addend);
      case PcRelative32 =>
        WrappedIs(value, s - target);
        SameMoved(value, s, target);
      case High16 => if value < 0x1_0000_0000_0000 { HighHalf(value, s); }
      case Low16 => Halves(s);
      case _ =>
    }
  }

  lemma SymbolMeans(rel: Relocation, image: BinaryImage, bias: U64, resolver: Option<Resolver>, v: U64)
    ensures StandsFor(rel, image, bias, resolver, v) <==> SymbolValue(rel, image, bias, resolver) == Ok(v)
  {
  }

  lemma WidthMeans(rel: Relocation, width: nat)
    ensures HasWidth(rel, width) <==> width == WidthOf(rel)
  {
  }

  /** A relocation comes to this patch. */
  ghost predicate Due(rel: Relocation, image: BinaryImage, bias: U64, resolver: Option<Resolver>, p: Patch)
  {
    && p.target == rel.offset + bias && HasWidth(rel, p.width) && p.value < Pow256(p.width)
    && exists v: U64 ::
         && StandsFor(rel, image, bias, resolver, v)
         && KindLaw(rel.kind, p.value, v, rel.addend, bias, p.target)
  }

  lemma WideEnough(width: nat, value: U64)
    requires width >= 8
    ensures value < Pow256(width)
  {
    Pow256Values();
    Pow256Grows(8, width);
  }

  lemma DueMeans(rel: Relocation, image: BinaryImage, bias: U64, resolver: Option<Resolver>, p: Patch)
    ensures Due(rel, image, bias, resolver, p) <==> PatchOf(rel, image, bias, resolver) == Ok(Some(p))
  {
    WidthMeans(rel, p.width);
    Pow256Values();
    if p.width >= 8 { WideEnough(p.width, p.value); }
    if PatchOf(rel, image, bias, resolver) == Ok(Some(p)) {
      var v := SymbolValue(rel, image, bias, resolver).value;
      SymbolMeans(rel, image, bias, resolver, v);
      KindMeans(rel, v, bias, p.target, p.value);
    }
    if Due(rel, image, bias, resolver, p) {
      var v: U64 :| && StandsFor(rel, image, bias, resolver, v)
                    && KindLaw(rel.kind, p.value, v, rel.addend, bias, p.target);
      SymbolMeans(rel, image, bias, resolver, v);
      KindMeans(rel, v, bias, p.target, p.value);
    }
  }

  ghost predicate HasSymbolValue(rel: Relocation, image: BinaryImage, bias: U64, resolver: Option<Resolver>)
  {
    exists v: U64 :: StandsFor(rel, image, bias, resolver, v)
  }

  ghost predicate IsDue(rel: Relocation, image: BinaryImage, bias: U64, resolver: Option<Resolver>)
  {
    exists p: Patch :: Due(rel, image, bias, resolver, p)
  }

  lemma SymbolValueMeans(rel: Relocation, image: BinaryImage, bias: U64, resolver: Option<Resolver>)
    ensures HasSymbolValue(rel, image, bias, resolver) <==> SymbolValue(rel, image, bias, resolver).Ok?
  {
    var s := SymbolValue(rel, image, bias, resolver);
    if s.Ok? { SymbolMeans(rel, image, bias, resolver, s.value); }
    if HasSymbolValue(rel, image, bias, resolver) {
      var v: U64 :| StandsFor(rel, image, bias, resolver, v);
      SymbolMeans(rel, image, bias, resolver, v);
    }
  }

  lemma IsDueMeans(rel: Relocation, image: BinaryImage, bias: U64, resolver: Option<Resolver>)
    ensures IsDue(rel, image, bias, resolver) <==>
            && PatchOf(rel, image, bias, resolver).Ok? && PatchOf(rel, image, bias, resolver).value.Some?
  {
    var x := PatchOf(rel, image, bias, resolver);
    if x.Ok? && x.value.Some? { DueMeans(rel, image, bias, resolver, x.value.value); }
    if IsDue(rel, image, bias, resolver) {
      var p :| Due(rel, image, bias, resolver, p);
      DueMeans(rel, image, bias, resolver, p);
    }
  }

  /** Why a relocation comes to nothing or to an error: its kind is none; its symbol does not exist, cannot be
      resolved, or is displaced beyond 64 bits; its own address is; its kind is not supported; or its value
      does not fit. */
  lemma OutcomeMeans(rel: Relocation, image: BinaryImage, bias: U64, resolver: Option<Resolver>)
    ensures var x := PatchOf(rel, image, bias, resolver);
            var inside := rel.offset + bias < TWO64;
            var known := HasSymbolValue(rel, image, bias, resolver);
            && (x == Ok(None) <==> inside && known && rel.kind == NoRelocation)
            && (x == Err(InvalidSymbol) <==> inside && rel.symbolIndex >= |image.symbols| && rel.symbolIndex != 0)
            && (x == Err(UnresolvedImport) <==>
                  && inside && 0 < rel.symbolIndex < |image.symbols| && resolver.Some?
                  && image.symbols[rel.symbolIndex].binding == ImportSymbol && !known)
            && (x == Err(InvalidRelocation) <==> inside && known && rel.kind != NoRelocation && !Supported(rel.kind))
            && (x == Err(AddressOverflow) <==>
                  || !inside
                  || (&& 0 < rel.symbolIndex < |image.symbols| && !known
                      && (resolver.None? || image.symbols[rel.symbolIndex].binding != ImportSymbol))
                  || (known && Supported(rel.kind) && !IsDue(rel, image, bias, resolver)))
  {
    SymbolValueMeans(rel, image, bias, resolver);
    IsDueMeans(rel, image, bias, resolver);
    var s := SymbolValue(rel, image, bias, resolver);
    if s.Ok? && rel.offset + bias < TWO64 && rel.kind != NoRelocation {
      KindMeans(rel, s.value, bias, rel.offset + bias, 0);
    }
  }

  /** A relocation applies to memory exactly when its own address and its symbol's value fit, and it is of kind
      none, or it comes to a patch of one, two, four or eight bytes that one region contains. */
  lemma AppliesMeans(m: RegionMap, rel: Relocation, image: BinaryImage, bias: U64, resolver: Option<Resolver>)
    requires WellFormed(m)
    ensures OutcomeVerdict(m, PatchOf(rel, image, bias, resolver)).Done? <==>
            && rel.offset + bias < TWO64 && HasSymbolValue(rel, image, bias, resolver)
            && (|| rel.kind == NoRelocation
                || exists p: Patch :: Due(rel, image, bias, resolver, p) && Writable(m, p.target, p.width))
  {
    OutcomeMeans(rel, image, bias, resolver);
    IsDueMeans(rel, image, bias, resolver);
    var x := PatchOf(rel, image, bias, resolver);
    if x.Ok? && x.value.Some? {
      var p := x.value.value;
      DueMeans(rel, image, bias, resolver, p);
      if p.width > 0 { CoveringMeans(m, p.target, p.width); }
    }
    if exists p: Patch :: Due(rel, image, bias, resolver, p) && Writable(m, p.target, p.width) {
      var p: Patch :| Due(rel, image, bias, resolver, p) && Writable(m, p.target, p.width);
      DueMeans(rel, image, bias, resolver, p);
    }
  }

  /** One, two, four or eight bytes inside one region; permissions do not matter. */
  ghost predicate Writable(m: RegionMap, target: int, width: int)
  {
    (width == 1 || width == 2 || width == 4 || width == 8) && InOneRegion(m, target, width)
  }

  // ----- after the load -----

  predicate Disjoint(a: int, n: int, b: int, m: int)
  {
    a + n <= b || b + m <= a
  }

  /** The relocation leaves the range alone. */
  ghost predicate ClearOf(rel: Relocation, bias: U64, target: int, width: int)
  {
    rel.kind == NoRelocation
    || forall w: nat {:trigger HasWidth(rel, w)} :: HasWidth(rel, w) ==>
         Disjoint(rel.offset + bias, w, target, width)
  }

  /** The slots of the imports from number i on leave the range alone. */
  ghost predicate SlotsClear(image: BinaryImage, bias: U64, i: nat, target: int, width: int)
  {
    forall j {:trigger image.imports[j]} :: i <= j < |image.imports| ==>
      Disjoint(image.imports[j].slotAddress + bias, image.wordSize, target, width)
  }

  /** Nothing behind relocation k writes to the range: no later relocation and, if asked for, no import. */
  ghost predicate Undisturbed(image: BinaryImage, options: LoadOptions, bias: U64, k: nat, target: int, width: int)
  {
    && (forall j {:trigger image.relocations[j]} :: k < j < |image.relocations| ==>
          ClearOf(image.relocations[j], bias, target, width))
    && (options.resolveImports ==> SlotsClear(image, bias, 0, target, width))
  }

  lemma ClearMeansUntouched(rel: Relocation, image: BinaryImage, bias: U64, resolver: Option<Resolver>, p: Patch,
                            a: int)
    requires ClearOf(rel, bias, p.target, p.width) && InRange(a, p.target, p.width)
    ensures !Touches(PatchOf(rel, image, bias, resolver), a)
  {
    var x := PatchOf(rel, image, bias, resolver);
    if x.Ok? && x.value.Some? { WidthMeans(rel, x.value.value.width); }
  }

  lemma SlotsClearSpare(image: BinaryImage, bias: U64, resolver: Option<Resolver>, i: nat, p: Patch)
    requires SlotsClear(image, bias, i, p.target, p.width)
    ensures Spared(p, ImportsFor(image, bias, resolver), i, |image.imports|)
  {
    var outcomes := ImportsFor(image, bias, resolver);
    forall j, a | i <= j < |outcomes| && InRange(a, p.target, p.width) ensures !Touches(outcomes[j], a) {
      assert ImportIs(outcomes, image, bias, resolver, j);
      assert Disjoint(image.imports[j].slotAddress + bias, image.wordSize, p.target, p.width);
    }
  }

  lemma UndisturbedIsLeftAlone(image: BinaryImage, options: LoadOptions, bias: U64, resolver: Option<Resolver>,
                               k: nat, p: Patch)
    requires k < |image.relocations| && Undisturbed(image, options, bias, k, p.target, p.width)
    ensures LeftAlone(image, options, bias, resolver, p, k)
  {
    var outcomes := OutcomesFor(image, bias, resolver);
    forall j, a | k + 1 <= j < |outcomes| && InRange(a, p.target, p.width) ensures !Touches(outcomes[j], a) {
      assert OutcomeIs(outcomes, image, bias, resolver, j);
      ClearMeansUntouched(image.relocations[j], image, bias, resolver, p, a);
    }
    if options.resolveImports { SlotsClearSpare(image, bias, resolver, 0, p); }
  }

  /** After a successful load, every relocation has its patch, and unless something behind it writes there,
      memory holds the value that its kind calls for. */
  lemma LoadedRelocationMeans(limits: Limits, image: BinaryImage, options: LoadOptions, bias: U64,
                              resolver: Option<Resolver>, m: RegionMap, n: RegionMap, k: nat)
    returns (p: Patch)
    requires FinishedBy(limits, image, options, bias, resolver, m, n) && options.applyRelocations
    requires FinishVerdict(limits, image, options, bias, resolver, m).Done? && k < |image.relocations|
    requires image.relocations[k].kind != NoRelocation
    ensures Due(image.relocations[k], image, bias, resolver, p)
    ensures Undisturbed(image, options, bias, k, p.target, p.width) ==>
              && WellFormed(n) && Covering(n, p.target, p.width).Some?
              && Endian.Decode(ReadAt(n, p.target, p.width), image.byteOrder) == p.value
  {
    var rel := image.relocations[k];
    LoadedRelocationReadsBack(limits, image, options, bias, resolver, m, n, k);
    OutcomeMeans(rel, image, bias, resolver);
    p := PatchOf(rel, image, bias, resolver).value.value;
    DueMeans(rel, image, bias, resolver, p);
    if Undisturbed(image, options, bias, k, p.target, p.width) {
      UndisturbedIsLeftAlone(image, options, bias, resolver, k, p);
    }
  }

  /** An import applies exactly when it is resolved and its slot is one, two, four or eight bytes inside one
      region, or when it is weak and not resolved. */
  lemma ImportApplies(m: RegionMap, x: Import, image: BinaryImage, bias: U64, resolver: Option<Resolver>)
    requires WellFormed(m)
    ensures var v := if resolver.None? then None else resolver.value(x.library, x.name, x.ordinal);
            var verdict := OutcomeVerdict(m, ImportOutcome(x, image, bias, resolver));
            && (verdict.Done? <==>
                  if v.None? then x.weak
                  else x.slotAddress + bias < TWO64 && Writable(m, x.slotAddress + bias, image.wordSize))
            && (verdict == Failed(UnresolvedImport) <==> v.None? && !x.weak)
  {
    var outcome := ImportOutcome(x, image, bias, resolver);
    if outcome.Ok? && outcome.value.Some? && image.wordSize > 0 {
      CoveringMeans(m, outcome.value.value.target, image.wordSize);
    }
  }

  /** After a successful load, every import that the resolver does not know is weak, and the slot of every
      other one holds the address, cut to the word size, unless a later import writes there. */
  lemma LoadedImportMeans(limits: Limits, image: BinaryImage, options: LoadOptions, bias: U64,
                          resolver: Option<Resolver>, m: RegionMap, n: RegionMap, k: nat)
    requires FinishedBy(limits, image, options, bias, resolver, m, n) && options.resolveImports
    requires FinishVerdict(limits, image, options, bias, resolver, m).Done? && k < |image.imports|
    ensures var x := image.imports[k];
            var v := if resolver.None? then None else resolver.value(x.library, x.name, x.ordinal);
            var slot := x.slotAddress + bias;
            && (v.None? ==> x.weak)
            && (v.Some? && SlotsClear(image, bias, k + 1, slot, image.wordSize) ==>
                  && slot < TWO64 && 0 < image.wordSize && WellFormed(n)
                  && Covering(n, slot, image.wordSize).Some?
                  && Endian.Decode(ReadAt(n, slot, image.wordSize), image.byteOrder) ==
                     v.value % Pow256(image.wordSize))
  {
    FilledSlotReadsBack(limits, image, options, bias, resolver, m, n, k);
    var outcome := ImportOutcome(image.imports[k], image, bias, resolver);
    if outcome.value.Some? {
      var p := outcome.value.value;
      if SlotsClear(image, bias, k + 1, p.target, p.width) { SlotsClearSpare(image, bias, resolver, k + 1, p); }
    }
  }
}
