/** Where the bytes of a built section land when its whole segment is copied to memory: the segment
    keeps one displacement between the file and memory, its sections need not share it. */
module Landings {
  import opened Base
  import opened Placement

  /** The file position whose byte goes to section i's address, in a segment that starts with section lo. */
  function Landing(o: BuilderOptions, s: seq<BuilderSection>, lo: nat, i: nat): int
    requires lo < |s| && i < |s| && o.fileAlignment > 0 && o.memoryAlignment > 0
  {
    FileOffset(o, s, lo) + Address(o, s, i) - Address(o, s, lo)
  }

  /** The data of section j keeps out of size file bytes from position from on. */
  predicate KeepsOut(o: BuilderOptions, s: seq<BuilderSection>, j: nat, from: int, size: int)
    requires j < |s| && o.fileAlignment > 0
  {
    || s[j].data == []
    || FileOffset(o, s, j) + |s[j].data| <= from || from + size <= FileOffset(o, s, j)
  }

  /** With the segment's bytes from file position from on going to its memory, section i is at home: they
      begin with its data if it has any, and hold no other section's data. */
  predicate AtHome(o: BuilderOptions, s: seq<BuilderSection>, lo: nat, hi: nat, i: nat, from: int)
    requires lo <= i < hi <= |s| && o.fileAlignment > 0
  {
    && (s[i].data != [] ==> from == FileOffset(o, s, i))
    && forall j {:trigger KeepsOut(o, s, j, from, s[i].MemorySize())} :: lo <= j < hi && j != i ==>
         KeepsOut(o, s, j, from, s[i].MemorySize())
  }

  /** Section i lands where it belongs, in the segment of sections lo to hi - 1. */
  predicate Lands(o: BuilderOptions, s: seq<BuilderSection>, lo: nat, hi: nat, i: nat)
    requires lo <= i < hi <= |s| && o.fileAlignment > 0 && o.memoryAlignment > 0
  {
    AtHome(o, s, lo, hi, i, Landing(o, s, lo, i))
  }

  /** In a segment of its own, a section lands. */
  lemma AloneLands(o: BuilderOptions, s: seq<BuilderSection>, i: nat)
    requires i < |s| && o.fileAlignment > 0 && o.memoryAlignment > 0
    ensures Lands(o, s, i, i + 1, i)
  {
  }

  // ----- what the segment brings to a section's memory -----

  /** The byte at p of content with zeros behind it. */
  function Padded(content: seq<Byte>, p: int): Byte
  {
    if 0 <= p < |content| then content[p] else 0
  }

  /** The byte at q of what a section's memory is to hold: its data, then zeros. */
  function SectionByte(x: BuilderSection, q: int): Byte
  {
    if 0 <= q < |x.data| then x.data[q] else 0
  }

  /** content, zeros behind it, holds the section at position p. */
  ghost predicate HoldsAt(content: seq<Byte>, p: int, x: BuilderSection)
  {
    forall q {:trigger SectionByte(x, q)} :: 0 <= q < x.MemorySize() ==> Padded(content, p + q) == SectionByte(x, q)
  }

  /** The file bytes of the segment of sections lo to hi - 1. */
  function SegmentBytes(o: BuilderOptions, s: seq<BuilderSection>, lo: nat, hi: nat, file: seq<Byte>): seq<Byte>
    requires lo < hi <= |s| && o.fileAlignment > 0
    requires FileOffset(o, s, lo) <= FileCursor(o, s, hi) <= |file|
  {
    file[FileOffset(o, s, lo)..FileCursor(o, s, hi)]
  }

  lemma SegmentInFile(o: BuilderOptions, s: seq<BuilderSection>, lo: nat, hi: nat, file: seq<Byte>)
    requires lo < hi <= |s| && o.fileAlignment > 0 && o.memoryAlignment > 0 && StorageIs(o, s, |s|, file)
    ensures FileOffset(o, s, lo) <= FileCursor(o, s, hi) <= |file|
  {
    Increasing(o, s, lo, hi);
    CursorGrows(o, s, hi, |s|);
  }

  /** Position p lies in the data of section k. */
  predicate InData(o: BuilderOptions, s: seq<BuilderSection>, k: nat, p: int)
    requires k < |s| && o.fileAlignment > 0
  {
    FileOffset(o, s, k) <= p < FileOffset(o, s, k) + |s[k].data|
  }

  /** Every byte of the segment is zero or lies in the data of one of its sections. */
  lemma OwnerInSegment(o: BuilderOptions, s: seq<BuilderSection>, lo: nat, hi: nat, file: seq<Byte>, p: int)
    returns (k: nat)
    requires lo < hi <= |s| && o.fileAlignment > 0 && o.memoryAlignment > 0 && StorageIs(o, s, |s|, file)
    requires FileOffset(o, s, lo) <= p < FileCursor(o, s, hi)
    ensures lo <= k < hi && p < |file|
    ensures if InData(o, s, k, p) then file[p] == s[k].data[p - FileOffset(o, s, k)] else file[p] == 0
  {
    CursorGrows(o, s, hi, |s|);
    k := ByteOwner(o, s, |s|, p);
    assert ByteIs(o, s, k, p, file[p]);
    if k < lo { CursorGrows(o, s, k + 1, lo); }
    if hi <= k { CursorGrows(o, s, hi, k); }
  }

  /** The file holds the data of its sections. */
  lemma DataByte(o: BuilderOptions, s: seq<BuilderSection>, file: seq<Byte>, k: nat, p: int)
    requires o.fileAlignment > 0 && o.memoryAlignment > 0 && StorageIs(o, s, |s|, file)
    requires k < |s| && InData(o, s, k, p)
    ensures 0 <= p < |file| && file[p] == s[k].data[p - FileOffset(o, s, k)]
  {
    CursorGrows(o, s, k + 1, |s|);
    assert ByteIs(o, s, k, p, file[p]);
  }

  lemma HomeByte(o: BuilderOptions, s: seq<BuilderSection>, lo: nat, hi: nat, file: seq<Byte>, i: nat, from: int,
                 q: nat)
    requires lo <= i < hi <= |s| && o.fileAlignment > 0 && o.memoryAlignment > 0 && StorageIs(o, s, |s|, file)
    requires FileOffset(o, s, lo) <= FileCursor(o, s, hi) <= |file| && FileOffset(o, s, lo) <= from
    requires AtHome(o, s, lo, hi, i, from) && q < s[i].MemorySize()
    ensures Padded(SegmentBytes(o, s, lo, hi, file), from - FileOffset(o, s, lo) + q) == SectionByte(s[i], q)
  {
    var p := from + q;
    if q < |s[i].data| {
      DataByte(o, s, file, i, p);
      CursorGrows(o, s, i + 1, hi);
    } else if p < FileCursor(o, s, hi) {
      var k := OwnerInSegment(o, s, lo, hi, file, p);
      assert k != i ==> KeepsOut(o, s, k, from, s[i].MemorySize());
    }
  }

  lemma HomeHolds(o: BuilderOptions, s: seq<BuilderSection>, lo: nat, hi: nat, file: seq<Byte>, i: nat, from: int)
    requires lo <= i < hi <= |s| && o.fileAlignment > 0 && o.memoryAlignment > 0 && StorageIs(o, s, |s|, file)
    requires FileOffset(o, s, lo) <= FileCursor(o, s, hi) <= |file| && FileOffset(o, s, lo) <= from
    requires AtHome(o, s, lo, hi, i, from)
    ensures HoldsAt(SegmentBytes(o, s, lo, hi, file), from - FileOffset(o, s, lo), s[i])
  {
    forall q {:trigger SectionByte(s[i], q)} | 0 <= q < s[i].MemorySize()
      ensures Padded(SegmentBytes(o, s, lo, hi, file), from - FileOffset(o, s, lo) + q) == SectionByte(s[i], q)
    {
      HomeByte(o, s, lo, hi, file, i, from, q);
    }
  }

  // ----- the converse, for data that can be told apart -----

  /** All data of section i is the byte b, and no other section's data has that byte or a zero. Sections
      of any sizes can be filled so. */
  ghost predicate Marked(s: seq<BuilderSection>, i: nat, b: Byte)
    requires i < |s|
  {
    && b != 0 && (forall q {:trigger s[i].data[q]} :: 0 <= q < |s[i].data| ==> s[i].data[q] == b)
    && forall j, q {:trigger s[j].data[q]} :: 0 <= j < |s| && j != i && 0 <= q < |s[j].data| ==>
         s[j].data[q] != b && s[j].data[q] != 0
  }

  /** A mark in the segment lies in section i. */
  lemma MarkFound(o: BuilderOptions, s: seq<BuilderSection>, lo: nat, hi: nat, file: seq<Byte>, i: nat, b: Byte, p: int)
    requires lo <= i < hi <= |s| && o.fileAlignment > 0 && o.memoryAlignment > 0 && StorageIs(o, s, |s|, file)
    requires FileOffset(o, s, lo) <= FileCursor(o, s, hi) <= |file| && Marked(s, i, b)
    requires Padded(SegmentBytes(o, s, lo, hi, file), p - FileOffset(o, s, lo)) == b
    ensures InData(o, s, i, p)
  {
    var k := OwnerInSegment(o, s, lo, hi, file, p);
    assert InData(o, s, k, p);
  }

  lemma MarkedDisplacement(o: BuilderOptions, s: seq<BuilderSection>, lo: nat, hi: nat, file: seq<Byte>, i: nat,
                           b: Byte, from: int)
    requires lo <= i < hi <= |s| && o.fileAlignment > 0 && o.memoryAlignment > 0 && StorageIs(o, s, |s|, file)
    requires FileOffset(o, s, lo) <= FileCursor(o, s, hi) <= |file| && Marked(s, i, b) && s[i].data != []
    requires HoldsAt(SegmentBytes(o, s, lo, hi, file), from - FileOffset(o, s, lo), s[i])
    ensures from == FileOffset(o, s, i)
  {
    MarkAt(o, s, lo, hi, file, i, b, from, 0);
    MarkAt(o, s, lo, hi, file, i, b, from, |s[i].data| - 1);
  }

  lemma MarkAt(o: BuilderOptions, s: seq<BuilderSection>, lo: nat, hi: nat, file: seq<Byte>, i: nat, b: Byte,
               from: int, q: nat)
    requires lo <= i < hi <= |s| && o.fileAlignment > 0 && o.memoryAlignment > 0 && StorageIs(o, s, |s|, file)
    requires FileOffset(o, s, lo) <= FileCursor(o, s, hi) <= |file| && Marked(s, i, b) && q < |s[i].data|
    requires HoldsAt(SegmentBytes(o, s, lo, hi, file), from - FileOffset(o, s, lo), s[i])
    ensures InData(o, s, i, from + q)
  {
    assert SectionByte(s[i], q) == s[i].data[q] == b;
    MarkFound(o, s, lo, hi, file, i, b, from + q);
  }

  /** No other data at a position that is to hold section i. */
  lemma MarkedApart(o: BuilderOptions, s: seq<BuilderSection>, lo: nat, hi: nat, file: seq<Byte>, i: nat, b: Byte,
                    from: int, j: nat, p: int)
    requires lo <= i < hi <= |s| && o.fileAlignment > 0 && o.memoryAlignment > 0 && StorageIs(o, s, |s|, file)
    requires FileOffset(o, s, lo) <= FileCursor(o, s, hi) <= |file| && Marked(s, i, b) && lo <= j < hi && j != i
    requires HoldsAt(SegmentBytes(o, s, lo, hi, file), from - FileOffset(o, s, lo), s[i])
    requires from <= p < from + s[i].MemorySize()
    ensures !InData(o, s, j, p)
  {
    assert SectionByte(s[i], p - from) == b || SectionByte(s[i], p - from) == 0;
    if InData(o, s, j, p) {
      DataByte(o, s, file, j, p);
      InsideSegment(o, s, lo, hi, j);
    }
  }

  lemma InsideSegment(o: BuilderOptions, s: seq<BuilderSection>, lo: nat, hi: nat, j: nat)
    requires lo <= j < hi <= |s| && o.fileAlignment > 0 && o.memoryAlignment > 0
    ensures FileOffset(o, s, lo) <= FileOffset(o, s, j) && FileOffset(o, s, j) + |s[j].data| <= FileCursor(o, s, hi)
  {
    if lo < j { Increasing(o, s, lo, j); }
    Increasing(o, s, j, hi);
  }

  lemma MarkedKeepsOut(o: BuilderOptions, s: seq<BuilderSection>, lo: nat, hi: nat, file: seq<Byte>, i: nat, b: Byte,
                       from: int, j: nat)
    requires lo <= i < hi <= |s| && o.fileAlignment > 0 && o.memoryAlignment > 0 && StorageIs(o, s, |s|, file)
    requires FileOffset(o, s, lo) <= FileCursor(o, s, hi) <= |file| && Marked(s, i, b) && lo <= j < hi && j != i
    requires HoldsAt(SegmentBytes(o, s, lo, hi, file), from - FileOffset(o, s, lo), s[i])
    requires s[i].MemorySize() > 0
    ensures KeepsOut(o, s, j, from, s[i].MemorySize())
  {
    var p := if from < FileOffset(o, s, j) then FileOffset(o, s, j) else from;
    if p < from + s[i].MemorySize() { MarkedApart(o, s, lo, hi, file, i, b, from, j, p); }
  }

  /** Where data can be told apart, the segment holds a section where it is to be exactly when the
      section is at home there. */
  lemma MarkedHoldsIff(o: BuilderOptions, s: seq<BuilderSection>, lo: nat, hi: nat, file: seq<Byte>, i: nat, b: Byte,
                       from: int)
    requires lo <= i < hi <= |s| && o.fileAlignment > 0 && o.memoryAlignment > 0 && StorageIs(o, s, |s|, file)
    requires FileOffset(o, s, lo) <= FileCursor(o, s, hi) <= |file| && FileOffset(o, s, lo) <= from
    requires Marked(s, i, b) && s[i].MemorySize() > 0
    ensures HoldsAt(SegmentBytes(o, s, lo, hi, file), from - FileOffset(o, s, lo), s[i]) <==>
            AtHome(o, s, lo, hi, i, from)
  {
    if AtHome(o, s, lo, hi, i, from) { HomeHolds(o, s, lo, hi, file, i, from); }
    if HoldsAt(SegmentBytes(o, s, lo, hi, file), from - FileOffset(o, s, lo), s[i]) {
      if s[i].data != [] { MarkedDisplacement(o, s, lo, hi, file, i, b, from); }
      forall j | lo <= j < hi && j != i ensures KeepsOut(o, s, j, from, s[i].MemorySize()) {
        MarkedKeepsOut(o, s, lo, hi, file, i, b, from, j);
      }
    }
  }
}
