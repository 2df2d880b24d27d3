/** The region map of src/address_space.cc as a value, the flat memory it stands for, and how
    each primitive step changes that memory. */
module Regions {
  import opened Base
  import opened OrderedMaps

  datatype MemoryRegion = MemoryRegion(base: U64, size: U64, permissions: Byte, name: Text, bytes: seq<Byte>)
  {
    /** MemoryRegion::contains. */
    predicate Contains(address: U64, length: U64)
    {
      address >= base && RangeInside(address - base, length, size)
    }
  }

  type RegionMap = map<U64, MemoryRegion>

  // ----- the invariant -----

  ghost predicate RegionOk(base: U64, r: MemoryRegion)
  {
    r.base == base && r.size > 0 && base + r.size < TWO64 && |r.bytes| == r.size
  }

  ghost predicate Apart(a: MemoryRegion, b: MemoryRegion)
  {
    a.base + a.size <= b.base || b.base + b.size <= a.base
  }

  /** Regions are nonempty, do not wrap, own a byte vector of their size and are disjoint. */
  ghost predicate WellFormed(m: RegionMap)
  {
    && (forall k {:trigger m[k]} :: k in m ==> RegionOk(k, m[k]))
    && (forall j, k {:trigger Apart(m[j], m[k])} :: j in m && k in m && j != k ==> Apart(m[j], m[k]))
  }

  /** The sum of all region sizes. */
  ghost function TotalSize(m: RegionMap): nat
  {
    if m.Keys == {} then 0
    else
      var k := Least(m.Keys);
      m[k].size + TotalSize(m - {k})
  }

  lemma {:induction false} TotalWithout(m: RegionMap, k: U64)
    requires k in m
    ensures TotalSize(m) == m[k].size + TotalSize(m - {k})
  {
    var j := Least(m.Keys);
    if j != k {
      TotalWithout(m - {j}, k);
      TotalWithout(m - {k}, j);
      assert m - {j} - {k} == m - {k} - {j};
    }
  }

  lemma TotalWith(m: RegionMap, k: U64, r: MemoryRegion)
    requires k !in m
    ensures TotalSize(m[k := r]) == TotalSize(m) + r.size
  {
    TotalWithout(m[k := r], k);
    assert m[k := r] - {k} == m;
  }

  lemma TotalReplace(m: RegionMap, k: U64, r: MemoryRegion)
    requires k in m && r.size == m[k].size
    ensures TotalSize(m[k := r]) == TotalSize(m)
  {
    TotalWithout(m, k);
    TotalWithout(m[k := r], k);
    assert m[k := r] - {k} == m - {k};
  }

  // ----- finding a region -----

  /** region_at: upper_bound, step back, and check the candidate. */
  function RegionAt(m: RegionMap, address: U64): (r: Option<U64>)
    ensures r.Some? ==> r.value in m && m[r.value].Contains(address, 1)
  {
    if !HasFloor(m.Keys, address) then None
    else
      var candidate := Floor(m.Keys, address);
      if m[candidate].Contains(address, 1) then Some(candidate) else None
  }

  /** region_at finds the unique region that contains the address iff there is one. */
  lemma RegionAtFinds(m: RegionMap, address: U64, k: U64)
    requires WellFormed(m)
    ensures RegionAt(m, address) == Some(k) <==> k in m && m[k].Contains(address, 1)
  {
    if k in m && m[k].Contains(address, 1) {
      assert k in m.Keys;
      var candidate := Floor(m.Keys, address);
      assert candidate == k || Apart(m[candidate], m[k]);
    }
  }

  /** The region that holds the whole range, as read, write and the patch validator look it up. */
  function Covering(m: RegionMap, address: U64, length: U64): Option<U64>
  {
    match RegionAt(m, address)
    case Some(k) => if m[k].Contains(address, length) then Some(k) else None
    case None => None
  }

  lemma CoveringFinds(m: RegionMap, address: U64, length: U64, k: U64)
    requires WellFormed(m) && length > 0
    ensures Covering(m, address, length) == Some(k) <==> k in m && m[k].Contains(address, length)
  {
    RegionAtFinds(m, address, k);
  }

  /** The range lies in the region at k. */
  ghost predicate InRegion(m: RegionMap, k: U64, address: int, size: int)
  {
    k in m && m[k].base <= address && address + size <= m[k].base + m[k].size
  }

  ghost predicate InOneRegion(m: RegionMap, address: int, size: int)
  {
    exists k: U64 :: InRegion(m, k, address, size)
  }

  /** The lookup finds the region that contains a range. */
  lemma CoveringMeans(m: RegionMap, address: U64, size: U64)
    requires WellFormed(m) && size > 0
    ensures Covering(m, address, size).Some? <==> InOneRegion(m, address, size)
    ensures forall k: U64 {:trigger InRegion(m, k, address, size)} :: InRegion(m, k, address, size) ==>
              Covering(m, address, size) == Some(k)
  {
    if Covering(m, address, size).Some? {
      var k := Covering(m, address, size).value;
      CoveringFinds(m, address, size, k);
      assert InRegion(m, k, address, size);
    }
    forall k: U64 {:trigger InRegion(m, k, address, size)} | InRegion(m, k, address, size)
      ensures Covering(m, address, size) == Some(k)
    {
      CoveringFinds(m, address, size, k);
    }
  }

  // ----- flat memory -----

  /** The partial map from addresses to bytes that a region map stands for. */
  type FlatMemory = imap<int, Byte>

  ghost predicate Holds(m: RegionMap, k: U64, address: int)
    requires k in m
  {
    m[k].base <= address < m[k].base + m[k].size
  }

  ghost predicate IsMapped(m: RegionMap, address: int)
  {
    exists k {:trigger Holds(m, k, address)} :: k in m && Holds(m, k, address)
  }

  ghost function Owner(m: RegionMap, address: int): (k: U64)
    requires IsMapped(m, address)
    ensures k in m && Holds(m, k, address)
  {
    var k :| k in m && Holds(m, k, address);
    k
  }

  ghost function Flat(m: RegionMap): FlatMemory
    requires WellFormed(m)
  {
    imap a | IsMapped(m, a) :: m[Owner(m, a)].bytes[a - m[Owner(m, a)].base]
  }

  lemma OwnerIsUnique(m: RegionMap, address: int, k: U64)
    requires WellFormed(m) && k in m && Holds(m, k, address)
    ensures IsMapped(m, address) && Owner(m, address) == k
  {
    var o := Owner(m, address);
    assert o == k || Apart(m[o], m[k]);
  }

  lemma FlatAt(m: RegionMap, k: U64, address: int)
    requires WellFormed(m) && k in m && Holds(m, k, address)
    ensures address in Flat(m) && Flat(m)[address] == m[k].bytes[address - k]
  {
    OwnerIsUnique(m, address, k);
  }

  /** The two maps place the same bytes at the same addresses. */
  ghost predicate SameBytes(m: RegionMap, n: RegionMap)
  {
    m.Keys == n.Keys
    && forall k {:trigger n[k]} :: k in m ==>
         m[k].base == n[k].base && m[k].size == n[k].size && m[k].bytes == n[k].bytes
  }

  lemma SameBytesAt(m: RegionMap, n: RegionMap, a: int)
    requires WellFormed(m) && WellFormed(n) && SameBytes(m, n) && IsMapped(m, a)
    ensures a in Flat(m) && a in Flat(n) && Flat(m)[a] == Flat(n)[a]
  {
    var o := Owner(m, a);
    assert m[o].bytes == n[o].bytes;
    FlatAt(m, o, a);
    FlatAt(n, o, a);
  }

  lemma SameBytesSameFlat(m: RegionMap, n: RegionMap)
    requires WellFormed(m) && WellFormed(n) && SameBytes(m, n)
    ensures Flat(m) == Flat(n)
  {
    forall a: int ensures (a in Flat(m) <==> a in Flat(n)) && (a in Flat(m) ==> Flat(m)[a] == Flat(n)[a]) {
      if IsMapped(m, a) { SameBytesAt(m, n, a); }
      if IsMapped(n, a) { SameBytesAt(n, m, a); }
    }
  }

  // ----- operations on flat memory: the specification -----

  ghost predicate InRange(address: int, start: int, length: int)
  {
    start <= address < start + length
  }

  /** Two memories agree at one address. */
  ghost predicate SameByte(f: FlatMemory, g: FlatMemory, a: int)
  {
    (a in f <==> a in g) && (a in f ==> f[a] == g[a])
  }

  lemma SameEverywhere(f: FlatMemory, g: FlatMemory)
    requires forall a {:trigger SameByte(f, g, a)} :: SameByte(f, g, a)
    ensures f == g
  {
    forall a: int ensures (a in f <==> a in g) && (a in f ==> f[a] == g[a]) { assert SameByte(f, g, a); }
  }

  /** The bytes of a range; it is only used on ranges that are mapped. */
  ghost function Fetch(f: FlatMemory, start: int, length: nat): seq<Byte>
  {
    seq(length, i => if start + i in f then f[start + i] else 0)
  }

  ghost function Store(f: FlatMemory, start: int, data: seq<Byte>): FlatMemory
  {
    imap a | a in f :: if InRange(a, start, |data|) then data[a - start] else f[a]
  }

  ghost function AddZeros(f: FlatMemory, start: int, length: nat): FlatMemory
  {
    imap a | a in f || InRange(a, start, length) :: if InRange(a, start, length) then 0 else f[a]
  }

  ghost function Drop(f: FlatMemory, start: int, length: nat): FlatMemory
  {
    imap a | a in f && !InRange(a, start, length) :: f[a]
  }

  // ----- the steps on regions -----

  function Zeros(n: nat): (r: seq<Byte>)
    ensures |r| == n
  {
    seq(n, i => 0)
  }

  /** data written over s from offset on. */
  function Splice(s: seq<Byte>, offset: nat, data: seq<Byte>): (r: seq<Byte>)
    requires offset + |data| <= |s|
    ensures |r| == |s|
  {
    s[..offset] + data + s[offset + |data|..]
  }

  function ReadAt(m: RegionMap, address: U64, length: nat): (r: seq<Byte>)
    requires WellFormed(m) && 0 < length < TWO64 && Covering(m, address, length).Some?
    ensures |r| == length
  {
    var k := Covering(m, address, length).value;
    CoveringFinds(m, address, length, k);
    m[k].bytes[address - k..address - k + length]
  }

  /** write without its permission test; a range that no region covers is left alone. */
  function WriteAt(m: RegionMap, address: U64, data: seq<Byte>): RegionMap
    requires WellFormed(m) && |data| < TWO64
  {
    if |data| == 0 || Covering(m, address, |data|).None? then m
    else
      var k := Covering(m, address, |data|).value;
      CoveringFinds(m, address, |data|, k);
      m[k := m[k].(bytes := Splice(m[k].bytes, address - k, data))]
  }

  /** Permissions, names and extents: everything about a region but its bytes. */
  ghost predicate SameShape(m: RegionMap, n: RegionMap)
  {
    m.Keys == n.Keys && forall k {:trigger n[k]} :: k in m ==> m[k].(bytes := []) == n[k].(bytes := [])
  }

  lemma SameShapeTransitive(l: RegionMap, m: RegionMap, n: RegionMap)
    requires SameShape(l, m) && SameShape(m, n)
    ensures SameShape(l, n)
  {
    forall k | k in l ensures l[k].(bytes := []) == n[k].(bytes := []) {
      assert l[k].(bytes := []) == m[k].(bytes := []);
    }
  }

  lemma SameShapeSymmetric(m: RegionMap, n: RegionMap)
    requires SameShape(m, n)
    ensures SameShape(n, m)
  {
    forall k | k in m ensures n[k].(bytes := []) == m[k].(bytes := []) {
    }
  }

  lemma WriteKeeps(m: RegionMap, address: U64, data: seq<Byte>)
    requires WellFormed(m) && |data| < TWO64
    ensures WellFormed(WriteAt(m, address, data)) && SameShape(m, WriteAt(m, address, data))
    ensures TotalSize(WriteAt(m, address, data)) == TotalSize(m)
  {
    var n := WriteAt(m, address, data);
    if n != m {
      var k := Covering(m, address, |data|).value;
      CoveringFinds(m, address, |data|, k);
      TotalReplace(m, k, n[k]);
      forall i, j | i in n && j in n && i != j ensures Apart(n[i], n[j]) {
        assert Apart(m[i], m[j]);
      }
    }
  }

  lemma ShapeCovers(m: RegionMap, n: RegionMap, address: U64, length: U64)
    requires SameShape(m, n)
    ensures RegionAt(m, address) == RegionAt(n, address)
    ensures Covering(m, address, length) == Covering(n, address, length)
  {
    if HasFloor(m.Keys, address) {
      var k := Floor(m.Keys, address);
      assert m[k].(bytes := []) == n[k].(bytes := []);
    }
  }

  lemma SameShapeMapped(m: RegionMap, n: RegionMap, a: int)
    requires SameShape(m, n)
    ensures IsMapped(m, a) <==> IsMapped(n, a)
  {
    if IsMapped(m, a) {
      var o := Owner(m, a);
      assert m[o].(bytes := []) == n[o].(bytes := []);
      assert Holds(n, o, a);
    }
    if IsMapped(n, a) {
      var o := Owner(n, a);
      assert m[o].(bytes := []) == n[o].(bytes := []);
      assert Holds(m, o, a);
    }
  }

  lemma WrittenByte(m: RegionMap, address: U64, data: seq<Byte>, o: U64, a: int)
    requires WellFormed(m) && 0 < |data| < TWO64 && Covering(m, address, |data|).Some?
    requires o in m && Holds(m, o, a)
    ensures var n := WriteAt(m, address, data);
            o in n && n[o].(bytes := []) == m[o].(bytes := []) && |n[o].bytes| == |m[o].bytes|
            && n[o].bytes[a - o] == if InRange(a, address, |data|) then data[a - address] else m[o].bytes[a - o]
  {
    var k := Covering(m, address, |data|).value;
    CoveringFinds(m, address, |data|, k);
    assert o == k || Apart(m[o], m[k]);
  }

  lemma WriteIsStoreAt(m: RegionMap, address: U64, data: seq<Byte>, a: int)
    requires WellFormed(m) && 0 < |data| < TWO64 && Covering(m, address, |data|).Some? && IsMapped(m, a)
    requires WellFormed(WriteAt(m, address, data))
    ensures a in Flat(m) && a in Flat(WriteAt(m, address, data))
    ensures Flat(WriteAt(m, address, data))[a] == if InRange(a, address, |data|) then data[a - address] else Flat(m)[a]
  {
    var o := Owner(m, a);
    WrittenByte(m, address, data, o, a);
    FlatAt(m, o, a);
    FlatAt(WriteAt(m, address, data), o, a);
  }

  /** A memory that differs from f by data at start is f with data stored there. */
  lemma StoredByte(f: FlatMemory, g: FlatMemory, start: int, data: seq<Byte>, a: int)
    requires a in f <==> a in g
    requires a in f ==> g[a] == if InRange(a, start, |data|) then data[a - start] else f[a]
    ensures SameByte(g, Store(f, start, data), a)
  {
  }

  lemma SameShapeFlat(m: RegionMap, n: RegionMap, a: int)
    requires WellFormed(m) && WellFormed(n) && SameShape(m, n)
    ensures a in Flat(m) <==> a in Flat(n)
  {
    SameShapeMapped(m, n, a);
  }

  lemma WriteIsStoreEverywhere(m: RegionMap, address: U64, data: seq<Byte>, a: int)
    requires WellFormed(m) && 0 < |data| < TWO64 && Covering(m, address, |data|).Some?
    requires WellFormed(WriteAt(m, address, data)) && SameShape(m, WriteAt(m, address, data))
    ensures SameByte(Flat(WriteAt(m, address, data)), Store(Flat(m), address, data), a)
  {
    SameShapeFlat(m, WriteAt(m, address, data), a);
    if a in Flat(m) { WriteIsStoreAt(m, address, data, a); }
    StoredByte(Flat(m), Flat(WriteAt(m, address, data)), address, data, a);
  }

  /** write refines a store into flat memory. */
  lemma WriteIsStore(m: RegionMap, address: U64, data: seq<Byte>)
    requires WellFormed(m) && 0 < |data| < TWO64 && Covering(m, address, |data|).Some?
    ensures WellFormed(WriteAt(m, address, data))
    ensures Flat(WriteAt(m, address, data)) == Store(Flat(m), address, data)
  {
    WriteKeeps(m, address, data);
    var f, g := Flat(WriteAt(m, address, data)), Store(Flat(m), address, data);
    forall a: int ensures SameByte(f, g, a) { WriteIsStoreEverywhere(m, address, data, a); }
    SameEverywhere(f, g);
  }

  /** read refines a fetch from flat memory. */
  lemma ReadIsFetch(m: RegionMap, address: U64, length: nat)
    requires WellFormed(m) && 0 < length < TWO64 && Covering(m, address, length).Some?
    ensures forall a :: InRange(a, address, length) ==> a in Flat(m)
    ensures ReadAt(m, address, length) == Fetch(Flat(m), address, length)
  {
    var k := Covering(m, address, length).value;
    CoveringFinds(m, address, length, k);
    forall a | InRange(a, address, length)
      ensures a in Flat(m) && Flat(m)[a] == m[k].bytes[a - k]
    {
      FlatAt(m, k, a);
    }
    forall i | 0 <= i < length ensures ReadAt(m, address, length)[i] == Fetch(Flat(m), address, length)[i] {
      assert InRange(address + i, address, length);
    }
  }

  /** A part of a range that is read is read from the same region. */
  lemma ReadPart(m: RegionMap, address: U64, size: nat, part: U64, length: nat)
    requires WellFormed(m) && 0 < size < TWO64 && Covering(m, address, size).Some?
    requires address <= part && 0 < length && part + length <= address + size
    ensures Covering(m, part, length).Some?
    ensures ReadAt(m, part, length) == ReadAt(m, address, size)[part - address..part - address + length]
  {
    var k := Covering(m, address, size).value;
    CoveringFinds(m, address, size, k);
    CoveringFinds(m, part, length, k);
  }

  /** What was written is read back. */
  lemma WriteReadBack(m: RegionMap, address: U64, data: seq<Byte>)
    requires WellFormed(m) && 0 < |data| < TWO64 && Covering(m, address, |data|).Some?
    ensures var n := WriteAt(m, address, data);
            WellFormed(n) && Covering(n, address, |data|).Some? && ReadAt(n, address, |data|) == data
  {
    WriteKeeps(m, address, data);
    var n := WriteAt(m, address, data);
    ShapeCovers(m, n, address, |data|);
    var k := Covering(m, address, |data|).value;
    CoveringFinds(m, address, |data|, k);
  }

  /** Writing back what was there undoes a write exactly. */
  lemma WriteUndone(m: RegionMap, address: U64, data: seq<Byte>)
    requires WellFormed(m) && 0 < |data| < TWO64 && Covering(m, address, |data|).Some?
    ensures WellFormed(WriteAt(m, address, data))
    ensures WriteAt(WriteAt(m, address, data), address, ReadAt(m, address, |data|)) == m
  {
    WriteKeeps(m, address, data);
    var n, before := WriteAt(m, address, data), ReadAt(m, address, |data|);
    ShapeCovers(m, n, address, |data|);
    var k := Covering(m, address, |data|).value;
    CoveringFinds(m, address, |data|, k);
    var offset := address - k;
    assert Splice(n[k].bytes, offset, before) == m[k].bytes;
    assert WriteAt(n, address, before) == n[k := n[k].(bytes := m[k].bytes)];
    assert n[k].(bytes := m[k].bytes) == m[k];
  }

  /** Writing what is already there changes nothing. */
  lemma WriteBackSame(m: RegionMap, address: U64, length: nat)
    requires WellFormed(m) && 0 < length < TWO64 && Covering(m, address, length).Some?
    ensures WriteAt(m, address, ReadAt(m, address, length)) == m
  {
    var k := Covering(m, address, length).value;
    CoveringFinds(m, address, length, k);
    assert Splice(m[k].bytes, address - k, ReadAt(m, address, length)) == m[k].bytes;
  }

  // ----- mapping and unmapping -----

  ghost predicate Overlaps(r: MemoryRegion, base: int, size: int)
  {
    r.base < base + size && base < r.base + r.size
  }

  ghost predicate OverlapsAny(m: RegionMap, base: int, size: int)
  {
    exists k {:trigger Overlaps(m[k], base, size)} :: k in m && Overlaps(m[k], base, size)
  }

  /** The test in map that only looks at the two neighbours. */
  predicate NeighbourOverlap(m: RegionMap, base: U64, size: U64)
    requires base + size < TWO64
  {
    || (HasCeiling(m.Keys, base) && base + size > m[Ceiling(m.Keys, base)].base)
    || (HasBelow(m.Keys, base)
        && (var p := m[Before(m.Keys, base)];
            var end := CheckedAdd(p.base, p.size);
            end.None? || end.value > base))
  }

  predicate HasBelow(keys: set<nat>, x: nat)
  {
    exists k :: k in keys && k < x
  }

  /** prev(lower_bound(x)). */
  function Before(keys: set<nat>, x: nat): (r: nat)
    requires HasBelow(keys, x)
    ensures r in keys && r < x && forall k :: k in keys && k < x ==> k <= r
  {
    Floor(keys, x - 1)
  }

  /** Looking at the two neighbours finds an overlap iff there is one with any region. */
  lemma NeighboursSuffice(m: RegionMap, base: U64, size: U64)
    requires WellFormed(m) && size > 0 && base + size < TWO64
    ensures NeighbourOverlap(m, base, size) <==> OverlapsAny(m, base, size)
  {
    if OverlapsAny(m, base, size) {
      var k :| k in m && Overlaps(m[k], base, size);
      assert k in m.Keys && m[k].base == k;
      if k < base {
        var p := Before(m.Keys, base);
        if p != k { assert Apart(m[p], m[k]); }
      } else {
        var c := Ceiling(m.Keys, base);
      }
    }
    if NeighbourOverlap(m, base, size) {
      if HasCeiling(m.Keys, base) && base + size > m[Ceiling(m.Keys, base)].base {
        assert Overlaps(m[Ceiling(m.Keys, base)], base, size);
      } else {
        assert Overlaps(m[Before(m.Keys, base)], base, size);
      }
    }
  }

  lemma MapKeeps(m: RegionMap, base: U64, r: MemoryRegion)
    requires WellFormed(m) && RegionOk(base, r) && !OverlapsAny(m, base, r.size)
    ensures base !in m && WellFormed(m[base := r]) && TotalSize(m[base := r]) == TotalSize(m) + r.size
  {
    assert base !in m || Overlaps(m[base], base, r.size);
    TotalWith(m, base, r);
    var n := m[base := r];
    forall i, j | i in n && j in n && i != j ensures Apart(n[i], n[j]) {
      if i != base && j != base {
        assert Apart(m[i], m[j]);
      } else {
        var k := if i == base then j else i;
        assert !Overlaps(m[k], base, r.size);
      }
    }
  }

  lemma MapAddsZeros(m: RegionMap, base: U64, r: MemoryRegion)
    requires WellFormed(m) && RegionOk(base, r) && !OverlapsAny(m, base, r.size) && r.bytes == Zeros(r.size)
    ensures WellFormed(m[base := r]) && Flat(m[base := r]) == AddZeros(Flat(m), base, r.size)
  {
    MapKeeps(m, base, r);
    var n := m[base := r];
    forall a: int
      ensures (a in Flat(n) <==> a in Flat(m) || InRange(a, base, r.size))
              && (a in Flat(n) ==> Flat(n)[a] == AddZeros(Flat(m), base, r.size)[a])
    {
      if InRange(a, base, r.size) {
        assert Holds(n, base, a);
        FlatAt(n, base, a);
      } else if IsMapped(n, a) {
        var o := Owner(n, a);
        assert o != base && Holds(m, o, a);
        FlatAt(n, o, a);
        FlatAt(m, o, a);
      } else if IsMapped(m, a) {
        var o := Owner(m, a);
        assert Holds(n, o, a);
      }
    }
  }

  lemma UnmapKeeps(m: RegionMap, base: U64)
    requires WellFormed(m) && base in m
    ensures WellFormed(m - {base}) && TotalSize(m - {base}) == TotalSize(m) - m[base].size
  {
    TotalWithout(m, base);
    var n := m - {base};
    forall i, j | i in n && j in n && i != j ensures Apart(n[i], n[j]) { assert Apart(m[i], m[j]); }
  }

  lemma UnmapDrops(m: RegionMap, base: U64)
    requires WellFormed(m) && base in m
    ensures WellFormed(m - {base}) && Flat(m - {base}) == Drop(Flat(m), base, m[base].size)
  {
    UnmapKeeps(m, base);
    var n := m - {base};
    forall a: int
      ensures (a in Flat(n) <==> a in Flat(m) && !InRange(a, base, m[base].size))
              && (a in Flat(n) ==> Flat(n)[a] == Flat(m)[a])
    {
      if IsMapped(n, a) {
        var o := Owner(n, a);
        assert Holds(m, o, a);
        FlatAt(n, o, a);
        FlatAt(m, o, a);
        assert Apart(m[o], m[base]);
      }
      if IsMapped(m, a) && !InRange(a, base, m[base].size) {
        var o := Owner(m, a);
        assert Holds(n, o, a);
      }
    }
  }
}
