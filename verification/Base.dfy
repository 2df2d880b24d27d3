/** Shared value types, the limits record and the overflow-aware arithmetic of src/base.cc. */
module Base {
  /** uint8_t, uint32_t, uint64_t. */
  type Byte = x: nat | x < 256
  type U32 = x: nat | x < 0x1_0000_0000
  type U64 = x: nat | x < 0x1_0000_0000_0000_0000

  /** std::string and std::vector<uint8_t>; the size of either fits size_t. */
  type Text = seq<Byte>
  type Blob = s: seq<Byte> | |s| < 0x1_0000_0000_0000_0000

  const TWO32: int := 0x1_0000_0000
  const TWO64: int := 0x1_0000_0000_0000_0000

  const PERMISSION_READ: Byte := 1
  const PERMISSION_WRITE: Byte := 2
  const PERMISSION_EXECUTE: Byte := 4

  datatype ErrorCode =
    | Unspecified  // the caller's error object is left as it was
    | Truncated
    | BadMagic
    | InvalidHeader
    | InvalidOffset
    | InvalidAlignment
    | InvalidSection
    | InvalidSegment
    | InvalidSymbol
    | InvalidRelocation
    | InvalidDebugInfo
    | AddressOverflow
    | FileRangeOverflow
    | MappingOverlap
    | MappingMissing
    | PermissionDenied
    | UnresolvedImport
    | ResourceLimit

  datatype Option<+T> = None | Some(value: T)

  datatype Result<+T> = Ok(value: T) | Err(code: ErrorCode)

  datatype Status = Done | Failed(code: ErrorCode)

  datatype ByteOrder = Little | Big

  datatype Limits = Limits(
    maxFileSize: U64, maxMappedBytes: U64, maxSectionBytes: U64, maxDebugBytes: U64,
    maxStringBytes: U64, maxSections: U32, maxSegments: U32, maxSymbols: U32,
    maxRelocations: U32, maxDebugDepth: U32, maxDisassemblyInstructions: U32, pageSize: U32)

  function Max(a: U64, b: U64): U64
  {
    if a < b then b else a
  }

  /** checked_add: the sum, or nothing when it leaves 64 bits. */
  function CheckedAdd(left: U64, right: U64): (r: Option<U64>)
    ensures r.Some? <==> left + right < TWO64
    ensures r.Some? ==> r.value == left + right
  {
    if right > 0xFFFF_FFFF_FFFF_FFFF - left then None else Some(left + right)
  }

  /** range_inside: [offset, offset + length) lies in [0, containerSize), without overflow. */
  predicate RangeInside(offset: U64, length: U64, containerSize: U64)
    ensures RangeInside(offset, length, containerSize) <==> offset + length <= containerSize
  {
    offset <= containerSize && length <= containerSize - offset
  }

  // ----- bitwise operations on naturals -----

  /** The bitwise conjunction a & b. */
  function BitAnd(a: nat, b: nat): nat
  {
    if a == 0 || b == 0 then 0
    else 2 * BitAnd(a / 2, b / 2) + (if a % 2 == 1 && b % 2 == 1 then 1 else 0)
  }

  /** The bitwise difference a & ~b. */
  function BitClear(a: nat, b: nat): nat
  {
    if a == 0 then 0
    else 2 * BitClear(a / 2, b / 2) + (if a % 2 == 1 && b % 2 == 0 then 1 else 0)
  }

  function Pow2(k: nat): (r: nat)
    ensures r > 0
  {
    if k == 0 then 1 else 2 * Pow2(k - 1)
  }

  ghost predicate IsPowerOfTwo(n: int)
  {
    exists k: nat :: n == Pow2(k)
  }

  /** The guard !alignment || (alignment & (alignment - 1)) that several files use. */
  predicate BadAlignment(alignment: U64)
  {
    alignment == 0 || BitAnd(alignment, alignment - 1) != 0
  }

  lemma {:induction false} BitAndZero(n: nat)
    requires n > 0
    ensures BitAnd(n, n - 1) == 0 <==> IsPowerOfTwo(n)
  {
    if n == 1 {
      assert Pow2(0) == n;
    } else if n % 2 == 1 {
      // The lowest bits of n / 2 and (n - 1) / 2 agree, so a higher common bit survives.
      assert (n - 1) / 2 == n / 2;
      BitAndSelf(n / 2);
      forall k: nat ensures n != Pow2(k) { if k > 0 { assert Pow2(k) == 2 * Pow2(k - 1); } }
    } else {
      assert (n - 1) / 2 == n / 2 - 1;
      BitAndZero(n / 2);
      if IsPowerOfTwo(n / 2) {
        var k: nat :| n / 2 == Pow2(k);
        assert Pow2(k + 1) == n;
      }
      if IsPowerOfTwo(n) {
        var k: nat :| n == Pow2(k);
        assert k > 0 && Pow2(k - 1) == n / 2;
      }
    }
  }

  lemma {:induction false} BitAndSelf(n: nat)
    ensures BitAnd(n, n) == n
  {
    if n > 0 { BitAndSelf(n / 2); }
  }

  /** The guard accepts exactly the powers of two. */
  lemma AlignmentGuard(alignment: U64)
    ensures !BadAlignment(alignment) <==> IsPowerOfTwo(alignment)
  {
    if alignment > 0 { BitAndZero(alignment); }
  }

  /** Clearing the low bits rounds down to a multiple. */
  lemma {:induction false} BitClearMask(x: nat, k: nat)
    ensures BitClear(x, Pow2(k) - 1) == x - x % Pow2(k)
  {
    if k == 0 {
      BitClearNone(x);
    } else {
      BitClearMask(x / 2, k - 1);
      BitClearStep(x, Pow2(k - 1));
    }
  }

  lemma BitClearStep(x: nat, m: nat)
    requires m > 0 && BitClear(x / 2, m - 1) == x / 2 - (x / 2) % m
    ensures BitClear(x, 2 * m - 1) == x - x % (2 * m)
  {
    HalveModulo(x, m);
    BitClearOdd(x, m);
  }

  lemma BitClearOdd(x: nat, m: nat)
    requires m > 0
    ensures BitClear(x, 2 * m - 1) == 2 * BitClear(x / 2, m - 1)
  {
    assert (2 * m - 1) / 2 == m - 1;
  }

  lemma {:induction false} BitClearNone(x: nat)
    ensures BitClear(x, 0) == x
  {
    if x > 0 { BitClearNone(x / 2); }
  }

  lemma HalveModulo(x: nat, m: nat)
    requires m > 0
    ensures x % (2 * m) == 2 * ((x / 2) % m) + x % 2
  {
    var q, r := (x / 2) / m, (x / 2) % m;
    DivMod(x / 2, m);
    assert q * (2 * m) == 2 * (q * m);
    UniqueRemainder(x, 2 * m, q, 2 * r + x % 2);
  }

  lemma DivMod(x: int, d: int)
    requires d > 0
    ensures x == (x / d) * d + x % d && 0 <= x % d < d
  {
  }

  lemma MulMonotone(a: int, b: int, d: int)
    requires a <= b && d >= 0
    ensures a * d <= b * d
  {
  }

  lemma QuotientGap(p: int, q: int, d: int)
    requires p < q && d > 0
    ensures p * d + d <= q * d
  {
    MulMonotone(p + 1, q, d);
  }

  lemma UniqueRemainder(x: int, d: int, q: int, r: int)
    requires d > 0 && 0 <= r < d && x == q * d + r
    ensures x / d == q && x % d == r
  {
    DivMod(x, d);
    if x / d < q { QuotientGap(x / d, q, d); }
    if q < x / d { QuotientGap(q, x / d, d); }
  }

  lemma HalvedQuotient(x: nat, p: nat)
    requires p > 0
    ensures x / (2 * p) == x / 2 / p
  {
    DivMod(x / 2, p);
    DivMod(x, 2);
    UniqueRemainder(x, 2 * p, x / 2 / p, 2 * (x / 2 % p) + x % 2);
  }

  /** Bit k of a. */
  predicate HasBit(a: nat, k: nat)
  {
    a / Pow2(k) % 2 == 1
  }

  lemma HasBitAbove(a: nat, k: nat)
    ensures HasBit(a, k + 1) <==> HasBit(a / 2, k)
    ensures HasBit(a, 0) <==> a % 2 == 1
  {
    HalvedQuotient(a, Pow2(k));
  }

  lemma HalvesOfAnd(a: nat, b: nat)
    ensures BitAnd(a, b) / 2 == BitAnd(a / 2, b / 2)
    ensures BitAnd(a, b) % 2 == 1 <==> a % 2 == 1 && b % 2 == 1
    ensures BitClear(a, b) / 2 == BitClear(a / 2, b / 2)
    ensures BitClear(a, b) % 2 == 1 <==> a % 2 == 1 && b % 2 == 0
  {
  }

  /** The two operations, bit by bit. */
  lemma {:induction false} BitwiseMeans(a: nat, b: nat, k: nat)
    ensures HasBit(BitAnd(a, b), k) <==> HasBit(a, k) && HasBit(b, k)
    ensures HasBit(BitClear(a, b), k) <==> HasBit(a, k) && !HasBit(b, k)
  {
    HalvesOfAnd(a, b);
    if k > 0 {
      BitwiseMeans(a / 2, b / 2, k - 1);
      HasBitAbove(a, k - 1);
      HasBitAbove(b, k - 1);
      HasBitAbove(BitAnd(a, b), k - 1);
      HasBitAbove(BitClear(a, b), k - 1);
    }
  }

  /** The test for one bit. */
  lemma {:induction false} OneBit(a: nat, k: nat)
    ensures BitAnd(a, Pow2(k)) != 0 <==> HasBit(a, k)
  {
    HalvesOfAnd(a, Pow2(k));
    if k > 0 {
      OneBit(a / 2, k - 1);
      HasBitAbove(a, k - 1);
    } else {
      assert BitAnd(a / 2, 0) == 0;
    }
  }

  /** checked_align_up. */
  function CheckedAlignUp(value: U64, alignment: U64): Option<U64>
  {
    if BadAlignment(alignment) then None
    else
      var mask := alignment - 1;
      match CheckedAdd(value, mask)
      case None => None
      case Some(expanded) =>
        BitClearBound(expanded, mask);
        Some(BitClear(expanded, mask))
  }

  lemma {:induction false} BitClearBound(x: nat, y: nat)
    ensures BitClear(x, y) <= x
  {
    if x > 0 { BitClearBound(x / 2, y / 2); }
  }

  ghost predicate MultipleFrom(value: int, alignment: int, m: int)
    requires alignment > 0
  {
    m % alignment == 0 && value <= m
  }

  /** r is the least multiple of alignment that is not below value. */
  ghost predicate LeastMultiple(value: int, alignment: int, r: int)
    requires alignment > 0
  {
    && MultipleFrom(value, alignment, r)
    && forall m {:trigger MultipleFrom(value, alignment, m)} :: MultipleFrom(value, alignment, m) ==> r <= m
  }

  lemma Distribute(a: int, b: int, c: int)
    ensures a * (b * c) == (a * b) * c
  {
  }

  lemma {:induction false} Pow2Add(j: nat, k: nat)
    ensures Pow2(j + k) == Pow2(j) * Pow2(k)
  {
    if j > 0 {
      Pow2Add(j - 1, k);
      Distribute(2, Pow2(j - 1), Pow2(k));
    }
  }

  lemma MultipleOf(q: int, d: int)
    requires d > 0
    ensures (q * d) % d == 0
  {
    UniqueRemainder(q * d, d, q, 0);
  }

  lemma Pow2Divides(j: nat, k: nat)
    requires j <= k
    ensures Pow2(k) % Pow2(j) == 0 && Pow2(j) <= Pow2(k)
  {
    Pow2Add(k - j, j);
    MultipleOf(Pow2(k - j), Pow2(j));
    MulMonotone(1, Pow2(k - j), Pow2(j));
  }

  lemma MultiplesApart(a: int, b: int, d: int)
    requires d > 0 && a % d == 0 && b % d == 0 && a < b
    ensures a + d <= b
  {
    DivMod(a, d);
    DivMod(b, d);
    var p, q := a / d, b / d;
    if q <= p { MulMonotone(q, p, d); }
    QuotientGap(p, q, d);
  }

  lemma Pow2SixtyFour()
    ensures Pow2(64) == TWO64
  {
    Pow2Square(4, 16);
    Pow2Square(8, 0x100);
    Pow2Square(16, 0x1_0000);
    Pow2Square(32, 0x1_0000_0000);
  }

  lemma Pow2Square(k: nat, p: nat)
    requires Pow2(k) == p
    ensures Pow2(2 * k) == p * p
  {
    Pow2Add(k, k);
  }

  /** For a power-of-two alignment the result is the least multiple, and the call fails
      exactly when that multiple is not representable; other alignments always fail. */
  lemma AlignUpIsLeastMultiple(value: U64, alignment: U64)
    ensures !IsPowerOfTwo(alignment) ==> CheckedAlignUp(value, alignment).None?
    ensures IsPowerOfTwo(alignment) && CheckedAlignUp(value, alignment).Some? ==>
              LeastMultiple(value, alignment, CheckedAlignUp(value, alignment).value)
              && CheckedAlignUp(value, alignment).value < value + alignment
    ensures IsPowerOfTwo(alignment) && CheckedAlignUp(value, alignment).None? ==>
              forall m {:trigger MultipleFrom(value, alignment, m)} :: MultipleFrom(value, alignment, m) ==> m >= TWO64
  {
    AlignmentGuard(alignment);
    if IsPowerOfTwo(alignment) {
      var k: nat :| alignment == Pow2(k);
      if value + alignment - 1 < TWO64 {
        AlignUpFits(value, alignment, k);
        RoundUp(value, alignment);
      } else {
        PowerDividesTwo64(alignment, k);
        NoRoomAbove(value, alignment);
      }
    }
  }

  lemma AlignUpClears(value: U64, alignment: U64)
    requires !BadAlignment(alignment) && value + alignment - 1 < TWO64
    ensures CheckedAlignUp(value, alignment) == Some(BitClear(value + alignment - 1, alignment - 1))
  {
  }

  lemma AlignUpFits(value: U64, alignment: U64, k: nat)
    requires alignment == Pow2(k) && value + alignment - 1 < TWO64
    ensures CheckedAlignUp(value, alignment) ==
            Some(value + alignment - 1 - (value + alignment - 1) % alignment)
  {
    AlignmentGuard(alignment);
    AlignUpClears(value, alignment);
    BitClearMask(value + alignment - 1, k);
  }

  lemma PowerDividesTwo64(alignment: U64, k: nat)
    requires alignment == Pow2(k)
    ensures TWO64 % alignment == 0
  {
    Pow2SixtyFour();
    if k > 64 { Pow2Divides(64, k); }
    Pow2Divides(k, 64);
  }

  lemma RoundUp(value: int, alignment: int)
    requires alignment > 0
    ensures var r := (value + alignment - 1) - (value + alignment - 1) % alignment;
            LeastMultiple(value, alignment, r) && r < value + alignment
  {
    var x := value + alignment - 1;
    DivMod(x, alignment);
    var r := x - x % alignment;
    MultipleOf(x / alignment, alignment);
    forall m {:trigger MultipleFrom(value, alignment, m)} | MultipleFrom(value, alignment, m) ensures r <= m {
      if m < r { MultiplesApart(m, r, alignment); }
    }
  }

  lemma NoRoomAbove(value: int, alignment: int)
    requires alignment > 0 && TWO64 % alignment == 0 && value + alignment > TWO64
    ensures forall m {:trigger MultipleFrom(value, alignment, m)} :: MultipleFrom(value, alignment, m) ==> m >= TWO64
  {
    forall m {:trigger MultipleFrom(value, alignment, m)} | MultipleFrom(value, alignment, m) ensures m >= TWO64 {
      if m < TWO64 { MultiplesApart(m, TWO64, alignment); }
    }
  }

  lemma Associate<T>(a: seq<T>, b: seq<T>, c: seq<T>)
    ensures (a + b) + c == a + (b + c)
  {
  }
}
