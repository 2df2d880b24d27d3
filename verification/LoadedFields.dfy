/** What a load makes of the fields of an image: where segments and entry point go, and what a segment's
    region looks like. */
module LoadedFields {
  import opened Base
  import opened Image
  import opened Loader
  import opened Regions
  import opened RelocationValues
  import opened Relocations

  /** Where the whole image goes: its displacement is that from its own base to the base asked for, or none,
      in 64 bits. */
  lemma BiasMeans(options: LoadOptions, originalBase: U64)
    ensures options.preferredBase == 0 ==> Bias(options, originalBase) == 0
    ensures options.preferredBase != 0 ==> Same64(originalBase + Bias(options, originalBase), options.preferredBase)
    ensures LoadBase(options.preferredBase, originalBase) ==
            if options.preferredBase == 0 then originalBase else options.preferredBase
  {
    WrappedIs(Bias(options, originalBase), LoadBase(options.preferredBase, originalBase) - originalBase);
  }

  /** The entry point moves with the image if it lies at or above its base; otherwise it is kept. */
  lemma EntryPointMoves(limits: Limits, memoryLimits: Limits, image: BinaryImage, options: LoadOptions,
                        resolver: Option<Resolver>, originalBase: U64, start: RegionMap, loaded: seq<RegionMap>,
                        end: RegionMap, r: Result<LoadResult>)
    requires LoadOutcome(limits, memoryLimits, image, options, resolver, originalBase, start, loaded, end, r) && r.Ok?
    ensures var entry := image.entryPoint;
            && (originalBase > 0 && entry >= originalBase ==>
                  && r.value.entryPoint == entry + Bias(options, originalBase)
                  && Same64(r.value.entryPoint - r.value.loadBase, entry - originalBase))
            && (originalBase == 0 || entry < originalBase ==> r.value.entryPoint == entry)
    ensures r.value.loadBase == if options.preferredBase == 0 then originalBase else options.preferredBase
  {
    BiasMeans(options, originalBase);
    if originalBase > 0 && image.entryPoint >= originalBase {
      SameMoves(originalBase, Bias(options, originalBase), r.value.loadBase, image.entryPoint);
    }
  }

  lemma SameMoves(base: int, bias: int, target: int, entry: int)
    requires Same64(base + bias, target)
    ensures Same64(entry + bias - target, entry - base)
  {
    assert (entry + bias - target) - (entry - base) == (base + bias) - target;
  }

  /** The pages of a segment: from the page that its displaced address lies in, as many as it takes; it has
      none only if the address, or the size with what lies in front of it, does not fit. */
  lemma WindowMeans(limits: Limits, s: Segment, bias: U64)
    requires IsPowerOfTwo(limits.pageSize)
    ensures limits.pageSize > 0
    ensures var page, r := limits.pageSize, WindowOf(limits, s, bias);
            var address := s.virtualAddress + bias;
            && (r.Ok? ==>
                  var w := r.value;
                  && w.address == address < TWO64
                  && w.base % page == 0 && w.base <= address < w.base + page
                  && LeastMultiple(address - w.base + s.memorySize, page, w.size))
            && (r.Err? ==> address >= TWO64
                           || forall n {:trigger MultipleFrom(address % page + s.memorySize, page, n)} ::
                                MultipleFrom(address % page + s.memorySize, page, n) ==> n >= TWO64)
  {
    var page, address := limits.pageSize, s.virtualAddress + bias;
    var k: nat :| page == Pow2(k);
    if address < TWO64 {
      BitClearMask(address, k);
      DivMod(address, page);
      MultipleOf(address / page, page);
      var total := address % page + s.memorySize;
      if total < TWO64 { AlignUpIsLeastMultiple(total, page); }
    }
  }

  /** With any other page size no segment that takes memory can be mapped. */
  lemma OddPagesFail(limits: Limits, s: Segment, bias: U64)
    requires !IsPowerOfTwo(limits.pageSize)
    ensures WindowOf(limits, s, bias) == Err(AddressOverflow)
  {
    if s.virtualAddress + bias < TWO64 {
      BitClearBound(s.virtualAddress + bias, PageMask(limits));
      var total := CheckedAdd(s.virtualAddress + bias - BitClear(s.virtualAddress + bias, PageMask(limits)),
                              s.memorySize);
      if total.Some? { AlignUpIsLeastMultiple(total.value, limits.pageSize); }
    }
  }

  /** A region may always be written, may be executed if its segment may and writing does not rule that out,
      and keeps all other permissions. */
  lemma InitialPermissionsMean(permissions: Byte, enforceWx: bool)
    ensures var p := InitialPermissions(permissions, enforceWx);
            && p % 2 == permissions % 2 && p / 2 % 2 == 1
            && (p / 4 % 2 == 1 <==> permissions / 4 % 2 == 1 && !enforceWx)
            && p / 8 == permissions / 8
  {
    var a, b, c, d := permissions / 8, permissions / 4 % 2, permissions / 2 % 2, permissions % 2;
    LowBits(permissions);
    var initial := 8 * a + 4 * b + 2 + d;
    FromLowBits(a, b, 1, d);
    FromLowBits(a, 0, 1, d);
    assert InitialPermissions(permissions, enforceWx) == if enforceWx && b == 1 then initial - 4 else initial;
  }

  lemma LowBits(p: nat)
    ensures p == 8 * (p / 8) + 4 * (p / 4 % 2) + 2 * (p / 2 % 2) + p % 2
  {
    HalvedQuotient(p, 2);
    HalvedQuotient(p, 4);
    HalvedQuotient(p / 2, 2);
    DivMod(p, 2);
    DivMod(p / 2, 2);
    DivMod(p / 4, 2);
  }

  lemma FromLowBits(a: nat, b: nat, c: nat, d: nat)
    requires b < 2 && c < 2 && d < 2
    ensures var p := 8 * a + 4 * b + 2 * c + d;
            p % 2 == d && p / 2 % 2 == c && p / 4 % 2 == b && p / 8 == a
  {
  }

  // ----- names -----

  function Value(digits: Text): nat
  {
    if digits == [] then 0
    else
      var d := digits[|digits| - 1];
      10 * Value(digits[..|digits| - 1]) + (if 48 <= d then d - 48 else 0)
  }

  /** Decimal digits, without leading zeros, of the number. */
  lemma {:induction false} DecimalMeans(n: nat)
    ensures Value(Decimal(n)) == n && |Decimal(n)| > 0
    ensures forall i {:trigger Decimal(n)[i]} :: 0 <= i < |Decimal(n)| ==> 48 <= Decimal(n)[i] <= 57
    ensures n > 0 ==> Decimal(n)[0] != 48
  {
    if n >= 10 { DecimalMeans(n / 10); }
    var front: Text := if n < 10 then [] else Decimal(n / 10);
    assert Decimal(n)[..|front|] == front;
  }

  /** The name "segment." with the number behind it. */
  predicate IsSegmentName(name: Text, index: nat)
  {
    && |name| > 8 && Value(name[8..]) == index
    && forall i {:trigger name[i]} :: 0 <= i < 8 ==> name[i] == "segment."[i] as int
  }

  lemma NameMeans(index: nat)
    ensures IsSegmentName(NAME_PREFIX + Decimal(index), index)
  {
    DecimalMeans(index);
    assert (NAME_PREFIX + Decimal(index))[8..] == Decimal(index);
  }

  /** The bytes hold the content at an offset, and zeros around it. */
  predicate Surrounded(bytes: seq<Byte>, offset: int, content: seq<Byte>)
  {
    forall i {:trigger bytes[i]} :: 0 <= i < |bytes| ==>
      bytes[i] == if 0 <= i - offset < |content| then content[i - offset] else 0
  }

  lemma SpliceSurrounds(size: nat, offset: nat, content: seq<Byte>)
    requires offset + |content| <= size
    ensures |Splice(Zeros(size), offset, content)| == size
    ensures Surrounded(Splice(Zeros(size), offset, content), offset, content)
  {
  }

  /** The region of a segment: its pages, its permissions, a name that ends in its number, its bytes at its
      address and zeros around them. */
  lemma RegionMeans(s: Segment, w: Window, enforceWx: bool, content: seq<Byte>)
    requires w.base <= w.address && w.address - w.base + |content| <= w.size
    ensures var r := SegmentRegion(s, w, enforceWx, content);
            && r.base == w.base && r.size == w.size == |r.bytes|
            && r.permissions == InitialPermissions(s.permissions, enforceWx)
            && IsSegmentName(r.name, s.index) && Surrounded(r.bytes, w.address - w.base, content)
  {
    NameMeans(s.index);
    SpliceSurrounds(w.size, w.address - w.base, content);
  }
}
