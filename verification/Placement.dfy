/** Where src/builder.cc places its sections, as functions of the options and the sections alone. */
module Placement {
  import opened Base
  import opened Image

  datatype BuilderSection = BuilderSection(
    name: Text, kind: SectionKind, permissions: Byte, alignment: U64, data: Blob, zeroFill: U64)
  {
    function MemorySize(): nat { |data| + zeroFill }
  }

  datatype BuilderOptions = BuilderOptions(
    wordSize: Byte, byteOrder: ByteOrder, imageBase: U64, fileAlignment: U64, memoryAlignment: U64,
    separatePermissions: bool)

  /** The least multiple of alignment that is not below x. */
  function AlignedUp(x: nat, alignment: nat): (r: nat)
    requires alignment > 0
    ensures LeastMultiple(x, alignment, r) && r < x + alignment
  {
    RoundUp(x, alignment);
    (x + alignment - 1) - (x + alignment - 1) % alignment
  }

  /** For powers of two, checked_align_up computes it whenever it fits 64 bits. */
  lemma AlignUpExact(value: U64, alignment: U64)
    requires IsPowerOfTwo(alignment) && alignment > 0
    ensures CheckedAlignUp(value, alignment) ==
            if AlignedUp(value, alignment) < TWO64 then Some(AlignedUp(value, alignment)) else None
  {
    AlignUpIsLeastMultiple(value, alignment);
    var r := AlignedUp(value, alignment);
    if CheckedAlignUp(value, alignment).Some? {
      var c := CheckedAlignUp(value, alignment).value;
      assert r % alignment == 0 && c % alignment == 0;
    } else {
      assert r % alignment == 0 && value <= r;
    }
  }

  /** What the alignments of options and sections must be. */
  ghost predicate GoodAlignments(o: BuilderOptions, s: seq<BuilderSection>)
  {
    && o.fileAlignment > 0 && IsPowerOfTwo(o.fileAlignment)
    && o.memoryAlignment > 0 && IsPowerOfTwo(o.memoryAlignment)
    && forall i {:trigger s[i]} :: 0 <= i < |s| ==> s[i].alignment > 0 && IsPowerOfTwo(s[i].alignment)
  }

  function FileAlignment(o: BuilderOptions, s: BuilderSection): (a: U64)
    ensures o.fileAlignment > 0 ==> a > 0
  {
    Max(o.fileAlignment, s.alignment)
  }

  function MemoryAlignment(o: BuilderOptions, s: BuilderSection): (a: U64)
    ensures o.memoryAlignment > 0 ==> a > 0
  {
    Max(o.memoryAlignment, s.alignment)
  }

  // ----- positions -----

  /** The end of the first i sections in the file. */
  function FileCursor(o: BuilderOptions, s: seq<BuilderSection>, i: nat): nat
    requires i <= |s| && o.fileAlignment > 0
    decreases i, 0
  {
    if i == 0 then 0 else FileOffset(o, s, i - 1) + |s[i - 1].data|
  }

  function FileOffset(o: BuilderOptions, s: seq<BuilderSection>, i: nat): nat
    requires i < |s| && o.fileAlignment > 0
    decreases i, 1
  {
    AlignedUp(FileCursor(o, s, i), FileAlignment(o, s[i]))
  }

  /** The end of the first i sections in memory. */
  function MemoryCursor(o: BuilderOptions, s: seq<BuilderSection>, i: nat): nat
    requires i <= |s| && o.memoryAlignment > 0
    decreases i, 0
  {
    if i == 0 then o.imageBase else Address(o, s, i - 1) + s[i - 1].MemorySize()
  }

  function Address(o: BuilderOptions, s: seq<BuilderSection>, i: nat): nat
    requires i < |s| && o.memoryAlignment > 0
    decreases i, 1
  {
    AlignedUp(MemoryCursor(o, s, i), MemoryAlignment(o, s[i]))
  }

  function Larger(a: int, b: int): (r: int)
    ensures a <= r && b <= r && (r == a || r == b)
  {
    if a < b then b else a
  }

  lemma OffsetMeans(o: BuilderOptions, s: seq<BuilderSection>, i: nat)
    requires i < |s| && o.fileAlignment > 0
    ensures LeastMultiple(if i == 0 then 0 else FileOffset(o, s, i - 1) + |s[i - 1].data|,
                          Larger(o.fileAlignment, s[i].alignment), FileOffset(o, s, i))
  {
    var a, e := Larger(o.fileAlignment, s[i].alignment), FileCursor(o, s, i);
    assert a == FileAlignment(o, s[i]) && FileOffset(o, s, i) == AlignedUp(e, a);
    assert e == if i == 0 then 0 else FileOffset(o, s, i - 1) + |s[i - 1].data|;
    assert LeastMultiple(e, a, FileOffset(o, s, i));
  }

  lemma AddressMeans(o: BuilderOptions, s: seq<BuilderSection>, i: nat)
    requires i < |s| && o.memoryAlignment > 0
    ensures LeastMultiple(if i == 0 then o.imageBase else Address(o, s, i - 1) + s[i - 1].MemorySize(),
                          Larger(o.memoryAlignment, s[i].alignment), Address(o, s, i))
  {
    var a, e := Larger(o.memoryAlignment, s[i].alignment), MemoryCursor(o, s, i);
    assert a == MemoryAlignment(o, s[i]) && Address(o, s, i) == AlignedUp(e, a);
    assert e == if i == 0 then o.imageBase else Address(o, s, i - 1) + s[i - 1].MemorySize();
    assert LeastMultiple(e, a, Address(o, s, i));
  }

  /** Why section i cannot be placed, if it cannot. */
  function PlacementError(limits: Limits, o: BuilderOptions, s: seq<BuilderSection>, i: nat): Option<ErrorCode>
    requires i < |s| && o.fileAlignment > 0 && o.memoryAlignment > 0
  {
    if FileOffset(o, s, i) >= TWO64 || Address(o, s, i) >= TWO64 then Some(AddressOverflow)
    else if FileOffset(o, s, i) + |s[i].data| > limits.maxFileSize then Some(ResourceLimit)
    else if Address(o, s, i) + s[i].MemorySize() >= TWO64 then Some(AddressOverflow)
    else None
  }

  /** The first n sections can all be placed. */
  ghost predicate PlacedTo(limits: Limits, o: BuilderOptions, s: seq<BuilderSection>, n: nat)
    requires n <= |s| && o.fileAlignment > 0 && o.memoryAlignment > 0
  {
    forall i {:trigger PlacementError(limits, o, s, i)} :: 0 <= i < n ==> PlacementError(limits, o, s, i).None?
  }

  /** Sections lie one behind the other, in the file and in memory. */
  lemma {:induction false} Increasing(o: BuilderOptions, s: seq<BuilderSection>, i: nat, j: nat)
    requires i < j <= |s| && o.fileAlignment > 0 && o.memoryAlignment > 0
    ensures FileOffset(o, s, i) + |s[i].data| <= FileCursor(o, s, j)
    ensures Address(o, s, i) + s[i].MemorySize() <= MemoryCursor(o, s, j)
    ensures j < |s| ==> FileCursor(o, s, j) <= FileOffset(o, s, j) && MemoryCursor(o, s, j) <= Address(o, s, j)
    decreases j
  {
    if i < j - 1 { Increasing(o, s, i, j - 1); }
  }

  lemma {:induction false} MemoryGrows(o: BuilderOptions, s: seq<BuilderSection>, i: nat, j: nat)
    requires i <= j <= |s| && o.memoryAlignment > 0
    ensures MemoryCursor(o, s, i) <= MemoryCursor(o, s, j)
    decreases j
  {
    if i < j { MemoryGrows(o, s, i, j - 1); }
  }

  // ----- the sections of the image -----

  /** The section record says where its section was placed. */
  predicate SectionIs(o: BuilderOptions, s: seq<BuilderSection>, i: nat, x: Section)
    requires i < |s| && o.fileAlignment > 0 && o.memoryAlignment > 0
  {
    && x.index == i && x.name == s[i].name && x.kind == s[i].kind && x.permissions == s[i].permissions
    && x.alignment == s[i].alignment && x.link == 0 && x.info == 0
    && x.fileOffset == FileOffset(o, s, i) && x.fileSize == |s[i].data|
    && x.virtualAddress == Address(o, s, i) && x.memorySize == s[i].MemorySize()
  }

  ghost predicate SectionsAre(o: BuilderOptions, s: seq<BuilderSection>, sections: seq<Section>)
    requires o.fileAlignment > 0 && o.memoryAlignment > 0
  {
    |sections| <= |s| && forall i {:trigger sections[i]} :: 0 <= i < |sections| ==> SectionIs(o, s, i, sections[i])
  }

  // ----- the bytes of the file -----

  /** Every byte of the file either belongs to a section or is zero. */
  ghost predicate ByteIs(o: BuilderOptions, s: seq<BuilderSection>, i: nat, p: int, b: Byte)
    requires i < |s| && o.fileAlignment > 0
  {
    && (FileCursor(o, s, i) <= p < FileOffset(o, s, i) ==> b == 0)
    && (FileOffset(o, s, i) <= p < FileOffset(o, s, i) + |s[i].data| ==> b == s[i].data[p - FileOffset(o, s, i)])
  }

  /** The file holds each section's data at its offset, with zeros in between. */
  ghost predicate StorageIs(o: BuilderOptions, s: seq<BuilderSection>, n: nat, storage: seq<Byte>)
    requires n <= |s| && o.fileAlignment > 0
  {
    && |storage| == FileCursor(o, s, n)
    && forall i, p {:trigger ByteIs(o, s, i, p, storage[p])} :: 0 <= i < n && 0 <= p < |storage| ==>
         ByteIs(o, s, i, p, storage[p])
  }

  lemma {:induction false} CursorGrows(o: BuilderOptions, s: seq<BuilderSection>, i: nat, j: nat)
    requires i <= j <= |s| && o.fileAlignment > 0 && o.memoryAlignment > 0
    ensures FileCursor(o, s, i) <= FileCursor(o, s, j)
    decreases j
  {
    if i < j { CursorGrows(o, s, i, j - 1); }
  }

  /** resize to the aligned offset, then append the data. */
  lemma StorageGrows(o: BuilderOptions, s: seq<BuilderSection>, n: nat, storage: seq<Byte>, zeros: seq<Byte>)
    requires n < |s| && o.fileAlignment > 0 && o.memoryAlignment > 0 && StorageIs(o, s, n, storage)
    requires |zeros| == FileOffset(o, s, n) - |storage| && forall p :: 0 <= p < |zeros| ==> zeros[p] == 0
    ensures StorageIs(o, s, n + 1, storage + zeros + s[n].data)
  {
    var t := storage + zeros + s[n].data;
    forall i, p | 0 <= i < n + 1 && 0 <= p < |t| ensures ByteIs(o, s, i, p, t[p]) {
      if i < n {
        Increasing(o, s, i, n);
        if p < |storage| { assert ByteIs(o, s, i, p, storage[p]); }
      }
    }
  }

  /** Every byte of the file lies in one section's padding or data. */
  lemma {:induction false} ByteOwner(o: BuilderOptions, s: seq<BuilderSection>, n: nat, p: int) returns (i: nat)
    requires n <= |s| && o.fileAlignment > 0 && 0 <= p < FileCursor(o, s, n)
    ensures i < n && FileCursor(o, s, i) <= p < FileOffset(o, s, i) + |s[i].data|
  {
    if FileCursor(o, s, n - 1) <= p { i := n - 1; } else { i := ByteOwner(o, s, n - 1, p); }
  }

  /** So the file is determined by the sections. */
  lemma SameStorage(o: BuilderOptions, s: seq<BuilderSection>, n: nat, a: seq<Byte>, b: seq<Byte>)
    requires n <= |s| && o.fileAlignment > 0 && StorageIs(o, s, n, a) && StorageIs(o, s, n, b)
    ensures a == b
  {
    forall p | 0 <= p < |a| ensures a[p] == b[p] {
      var i := ByteOwner(o, s, n, p);
      assert ByteIs(o, s, i, p, a[p]) && ByteIs(o, s, i, p, b[p]);
    }
  }

  /** The data of section i, read back from the file. */
  lemma DataInStorage(o: BuilderOptions, s: seq<BuilderSection>, storage: seq<Byte>, i: nat)
    requires o.fileAlignment > 0 && o.memoryAlignment > 0 && StorageIs(o, s, |s|, storage) && i < |s|
    ensures FileOffset(o, s, i) + |s[i].data| <= |storage|
    ensures storage[FileOffset(o, s, i)..FileOffset(o, s, i) + |s[i].data|] == s[i].data
  {
    Increasing(o, s, i, |s|);
    var offset := FileOffset(o, s, i);
    forall k | 0 <= k < |s[i].data| ensures storage[offset + k] == s[i].data[k] {
      assert ByteIs(o, s, i, offset + k, storage[offset + k]);
    }
  }
}
