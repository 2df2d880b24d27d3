/** The bitwise CRC-32 of src/base.cc (RFC 1952, section 8) and what it detects. */
module Crc {
  import opened Base
  import opened LinearRegister

  type Word = bv32

  const POLYNOMIAL: Word := 0xedb8_8320
  const INITIAL: Word := 0xffff_ffff

  /** One turn of the inner loop: shift out one bit and fold the polynomial in if it was set. */
  function Round(v: Word): Word
  {
    (v >> 1) ^ (POLYNOMIAL & (0 - (v & 1)))
  }

  // ----- bytes as bits -----

  predicate HasValue(x: bv8, v: int)
  {
    x as int == v
  }

  lemma CastHasValue(b: Byte)
    ensures HasValue(b as bv8, b)
  {
  }

  lemma ValueIsUnique(x: bv8, y: bv8, v: int)
    requires HasValue(x, v) && HasValue(y, v)
    ensures x == y
  {
    assert (x as int) as bv8 == x;
  }

  /** The eight bits of a byte. */
  function Bits(b: Byte): (x: bv8)
    ensures x as int == b
  {
    CastHasValue(b);
    assert forall x: bv8, y: bv8 :: HasValue(x, b) && HasValue(y, b) ==> x == y by {
      forall x: bv8, y: bv8 | HasValue(x, b) && HasValue(y, b) ensures x == y { ValueIsUnique(x, y, b); }
    }
    var x: bv8 :| HasValue(x, b);
    x
  }

  function Value(x: bv8): Byte
  {
    x as int
  }

  lemma BitsOfValue(x: bv8)
    ensures Bits(Value(x)) == x
  {
    ValueIsUnique(Bits(Value(x)), x, x as int);
  }

  lemma ValueOfBits(b: Byte)
    ensures Value(Bits(b)) == b
  {
  }

  function Xor(a: Word, b: Word): Word { a ^ b }

  function Lift(b: Byte): Word { Bits(b) as Word }

  function Up(w: Word): Word { w << 8 }

  const CRC: Machine<Word> := Machine(Xor, Round, Lift, Up, 8)

  function Checksum(data: seq<Byte>): Word
  {
    !Run(CRC, INITIAL, data)
  }

  /** The checksum as the uint32_t that records store and compare. */
  function ChecksumValue(data: seq<Byte>): U32
  {
    WordValue(Checksum(data))
  }

  function WordValue(w: Word): U32
  {
    w as int
  }

  /** crc32: the two nested loops. */
  method Crc32(data: seq<Byte>) returns (r: Word)
    ensures r == Checksum(data)
  {
    var value := INITIAL;
    for i := 0 to |data|
      invariant value == Run(CRC, INITIAL, data[..i])
    {
      value := Xor(value, Lift(data[i]));
      ghost var start := value;
      for bit := 0 to 8
        invariant value == Iterate(CRC.round, start, bit)
      {
        value := Round(value);
      }
      assert data[..i + 1][..i] == data[..i];
    }
    assert data[..|data|] == data;
    r := !value;
  }

  // ----- the machine is lawful -----

  lemma XorAssociative(a: Word, b: Word, c: Word)
    ensures Xor(Xor(a, b), c) == Xor(a, Xor(b, c))
  {
  }

  lemma XorUndo(a: Word, c: Word)
    ensures Xor(Xor(a, c), c) == a
    ensures Xor(a, c) == Xor(c, a)
  {
  }

  lemma RoundInjective(v: Word, w: Word)
    requires Round(v) == Round(w)
    ensures v == w
  {
  }

  lemma RoundBit(a: Word)
    ensures a & 1 == 0 || a & 1 == 1
    ensures a & 1 == 0 ==> Round(a) == a >> 1
    ensures a & 1 == 1 ==> Round(a) == (a >> 1) ^ POLYNOMIAL
  {
  }

  lemma RoundLinear(a: Word, b: Word)
    ensures Round(Xor(a, b)) == Xor(Round(a), Round(b))
  {
    RoundBit(a);
    RoundBit(b);
    RoundBit(a ^ b);
    assert (a ^ b) >> 1 == (a >> 1) ^ (b >> 1);
    assert (a ^ b) & 1 == (a & 1) ^ (b & 1);
  }

  function EightRounds(y: Word): Word
  {
    Round(Round(Round(Round(Round(Round(Round(Round(y))))))))
  }

  lemma EightRoundsShift(x: Word)
    requires x & 0xff00_0000 == 0
    ensures EightRounds(x << 8) == x
  {
  }

  lemma EightIterations<W>(f: W -> W, y: W)
    ensures Iterate(f, y, 8) == f(f(f(f(f(f(f(f(y))))))))
  {
    IterateAdd(f, y, 4, 4);
    assert Iterate(f, y, 4) == f(Iterate(f, y, 3)) && Iterate(f, y, 3) == f(Iterate(f, y, 2));
    var z := Iterate(f, y, 4);
    assert Iterate(f, z, 4) == f(Iterate(f, z, 3)) && Iterate(f, z, 3) == f(Iterate(f, z, 2));
  }

  lemma NarrowReturns(x: Word)
    requires x & 0xff00_0000 == 0
    ensures Returns(CRC, x)
  {
    EightIterations(CRC.round, Up(x));
    EightRoundsShift(x);
  }

  lemma NarrowBits(b1: bv8, b2: bv8, b3: bv8)
    ensures (b3 as Word) & 0xff00_0000 == 0
    ensures Xor(b2 as Word, Up(b3 as Word)) & 0xff00_0000 == 0
    ensures Xor(b1 as Word, Up(Xor(b2 as Word, Up(b3 as Word)))) & 0xff00_0000 == 0
  {
  }

  /** The little-endian word both container decoders assemble from the last four bytes. */
  function Stored(b0: Byte, b1: Byte, b2: Byte, b3: Byte): Word
  {
    StoredBits(Bits(b0), Bits(b1), Bits(b2), Bits(b3))
  }

  function StoredBits(b0: bv8, b1: bv8, b2: bv8, b3: bv8): Word
  {
    (b0 as Word) | ((b1 as Word) << 8) | ((b2 as Word) << 16) | ((b3 as Word) << 24)
  }

  lemma XorIsStored(b0: bv8, b1: bv8, b2: bv8, b3: bv8)
    ensures Xor(b0 as Word, Up(Xor(b1 as Word, Up(Xor(b2 as Word, Up(b3 as Word)))))) == StoredBits(b0, b1, b2, b3)
  {
  }

  lemma AssembleIsStored(b0: Byte, b1: Byte, b2: Byte, b3: Byte)
    ensures Assemble(CRC, b0, b1, b2, b3) == Stored(b0, b1, b2, b3)
  {
    XorIsStored(Bits(b0), Bits(b1), Bits(b2), Bits(b3));
  }

  /** The byte of w that starts at bit 8 * k. */
  function BitsAt(w: Word, k: nat): bv8
    requires k < 4
  {
    if k == 0 then (w & 0xff) as bv8
    else if k == 1 then ((w >> 8) & 0xff) as bv8
    else if k == 2 then ((w >> 16) & 0xff) as bv8
    else ((w >> 24) & 0xff) as bv8
  }

  /** append_u32 on a checksum. */
  function WordBytes(w: Word): (r: seq<Byte>)
    ensures |r| == 4
  {
    [Value(BitsAt(w, 0)), Value(BitsAt(w, 1)), Value(BitsAt(w, 2)), Value(BitsAt(w, 3))]
  }

  lemma BitsRoundTrip(w: Word, b0: bv8, b1: bv8, b2: bv8, b3: bv8)
    ensures StoredBits(BitsAt(w, 0), BitsAt(w, 1), BitsAt(w, 2), BitsAt(w, 3)) == w
    ensures BitsAt(StoredBits(b0, b1, b2, b3), 0) == b0 && BitsAt(StoredBits(b0, b1, b2, b3), 1) == b1
    ensures BitsAt(StoredBits(b0, b1, b2, b3), 2) == b2 && BitsAt(StoredBits(b0, b1, b2, b3), 3) == b3
  {
  }

  lemma WordRoundTrip(w: Word)
    ensures var b := WordBytes(w); Stored(b[0], b[1], b[2], b[3]) == w
  {
    BitsOfValue(BitsAt(w, 0));
    BitsOfValue(BitsAt(w, 1));
    BitsOfValue(BitsAt(w, 2));
    BitsOfValue(BitsAt(w, 3));
    BitsRoundTrip(w, 0, 0, 0, 0);
  }

  lemma WordBytesRoundTrip(b0: Byte, b1: Byte, b2: Byte, b3: Byte)
    ensures WordBytes(Stored(b0, b1, b2, b3)) == [b0, b1, b2, b3]
  {
    BitsRoundTrip(0, Bits(b0), Bits(b1), Bits(b2), Bits(b3));
    ValueOfBits(b0);
    ValueOfBits(b1);
    ValueOfBits(b2);
    ValueOfBits(b3);
  }

  lemma CrcCancels()
    ensures Cancels(CRC)
  {
    forall a, b, c
      ensures CRC.xor(a, c) == CRC.xor(b, c) ==> a == b
      ensures CRC.xor(c, a) == CRC.xor(c, b) ==> a == b
    {
      XorUndo(a, c);
      XorUndo(b, c);
    }
  }

  lemma CrcInjective()
    ensures Injective(CRC.round)
  {
    forall a, b ensures CRC.round(a) == CRC.round(b) ==> a == b {
      if Round(a) == Round(b) { RoundInjective(a, b); }
    }
  }

  lemma CrcReturns()
    ensures ShortWordsReturn(CRC)
  {
    forall b1, b2, b3
      ensures Returns(CRC, CRC.lift(b3))
      ensures Returns(CRC, CRC.xor(CRC.lift(b2), CRC.up(CRC.lift(b3))))
      ensures Returns(CRC, CRC.xor(CRC.lift(b1), CRC.up(CRC.xor(CRC.lift(b2), CRC.up(CRC.lift(b3))))))
    {
      NarrowBits(Bits(b1), Bits(b2), Bits(b3));
      NarrowReturns(Lift(b3));
      NarrowReturns(Xor(Lift(b2), Up(Lift(b3))));
      NarrowReturns(Xor(Lift(b1), Up(Xor(Lift(b2), Up(Lift(b3))))));
    }
  }

  lemma CrcTellsApart(a0: Byte, a1: Byte, a2: Byte, a3: Byte, b0: Byte, b1: Byte, b2: Byte, b3: Byte)
    requires Assemble(CRC, a0, a1, a2, a3) == Assemble(CRC, b0, b1, b2, b3)
    ensures a0 == b0 && a1 == b1 && a2 == b2 && a3 == b3
  {
    AssembleIsStored(a0, a1, a2, a3);
    AssembleIsStored(b0, b1, b2, b3);
    StoredInjective(a0, a1, a2, a3, b0, b1, b2, b3);
  }

  lemma StoredInjective(a0: Byte, a1: Byte, a2: Byte, a3: Byte, b0: Byte, b1: Byte, b2: Byte, b3: Byte)
    requires Stored(a0, a1, a2, a3) == Stored(b0, b1, b2, b3)
    ensures a0 == b0 && a1 == b1 && a2 == b2 && a3 == b3
  {
    WordBytesRoundTrip(a0, a1, a2, a3);
    WordBytesRoundTrip(b0, b1, b2, b3);
    SameFour(a0, a1, a2, a3, b0, b1, b2, b3);
  }

  lemma SameFour<T>(a0: T, a1: T, a2: T, a3: T, b0: T, b1: T, b2: T, b3: T)
    requires [a0, a1, a2, a3] == [b0, b1, b2, b3]
    ensures a0 == b0 && a1 == b1 && a2 == b2 && a3 == b3
  {
    assert [a0, a1, a2, a3][0] == b0 && [a0, a1, a2, a3][1] == b1;
    assert [a0, a1, a2, a3][2] == b2 && [a0, a1, a2, a3][3] == b3;
  }

  lemma CrcAssociative()
    ensures Associative(CRC)
  {
    forall v, b, x
      ensures CRC.xor(CRC.xor(v, CRC.lift(b)), CRC.up(x)) == CRC.xor(v, CRC.xor(CRC.lift(b), CRC.up(x)))
    {
      XorAssociative(v, Lift(b), Up(x));
    }
  }

  lemma CrcLinear()
    ensures Linear(CRC)
  {
    forall a, b ensures CRC.round(CRC.xor(a, b)) == CRC.xor(CRC.round(a), CRC.round(b)) {
      RoundLinear(a, b);
    }
  }

  lemma CrcTellsWordsApart()
    ensures TellsWordsApart(CRC)
  {
    forall a0, a1, a2, a3, b0, b1, b2, b3
      | Assemble(CRC, a0, a1, a2, a3) == Assemble(CRC, b0, b1, b2, b3)
      ensures a0 == b0 && a1 == b1 && a2 == b2 && a3 == b3
    {
      CrcTellsApart(a0, a1, a2, a3, b0, b1, b2, b3);
    }
  }

  lemma CrcIsLawful()
    ensures Lawful(CRC)
  {
    CrcAssociative();
    CrcCancels();
    CrcInjective();
    CrcLinear();
    CrcReturns();
    CrcTellsWordsApart();
  }

  // ----- sealed containers -----

  /** The trailer test of both container decoders. */
  predicate Sealed(d: seq<Byte>)
    requires |d| >= 4
  {
    var n := |d| - 4;
    Stored(d[n], d[n + 1], d[n + 2], d[n + 3]) == Checksum(d[..n])
  }

  /** What both encoders do last. */
  function Seal(body: seq<Byte>): seq<Byte>
  {
    body + WordBytes(Checksum(body))
  }

  lemma SealIsSealed(body: seq<Byte>)
    ensures |Seal(body)| == |body| + 4 && Sealed(Seal(body)) && Seal(body)[..|body|] == body
  {
    var d, w := Seal(body), Checksum(body);
    WordRoundTrip(w);
    assert d[..|body|] == body;
    assert d[|body|] == WordBytes(w)[0] && d[|body| + 1] == WordBytes(w)[1];
    assert d[|body| + 2] == WordBytes(w)[2] && d[|body| + 3] == WordBytes(w)[3];
  }

  lemma SealedIsSeal(d: seq<Byte>)
    requires |d| >= 4 && Sealed(d)
    ensures d == Seal(d[..|d| - 4])
  {
    var n := |d| - 4;
    WordBytesRoundTrip(d[n], d[n + 1], d[n + 2], d[n + 3]);
    assert d == d[..n] + [d[n], d[n + 1], d[n + 2], d[n + 3]];
  }

  lemma ComplementXor(s: Word, w: Word)
    ensures Xor(s, w) == INITIAL ==> w == !s
    ensures w == !s ==> Xor(s, w) == INITIAL
  {
    if s ^ w == 0xffff_ffff { assert w == !s; }
    if w == !s { assert s ^ w == 0xffff_ffff; }
  }

  /** The trailer cancels the register: the same test, said with xor. */
  ghost predicate TrailerCancels(d: seq<Byte>)
    requires |d| >= 4
  {
    CRC.xor(Run(CRC, INITIAL, d[..|d| - 4]), WordAt(CRC, d, |d| - 4)) == INITIAL
  }

  lemma SealedMeansCancels(d: seq<Byte>)
    requires |d| >= 4
    ensures Sealed(d) <==> TrailerCancels(d)
  {
    var n := |d| - 4;
    AssembleIsStored(d[n], d[n + 1], d[n + 2], d[n + 3]);
    ComplementXor(Run(CRC, INITIAL, d[..n]), Stored(d[n], d[n + 1], d[n + 2], d[n + 3]));
  }

  /** A container passes the trailer test iff running the register over all of it, trailer
      included, leaves the fixed residue. */
  lemma SealedMeansResidue(d: seq<Byte>)
    requires |d| >= 4
    ensures Sealed(d) <==> Run(CRC, INITIAL, d) == Iterate(CRC.round, INITIAL, 4 * CRC.turns)
  {
    SealedMeansCancels(d);
    CrcIsLawful();
    TrailerMeansResidue(CRC, INITIAL, d, INITIAL);
  }

  /** Any change of a sealed container within four consecutive bytes breaks the seal, wherever
      the four bytes lie: in the body, in the trailer or across both. */
  lemma BurstBreaksSeal(d: seq<Byte>, e: seq<Byte>, i: nat)
    requires |d| >= 4 && Sealed(d) && DifferOnlyIn(d, e, i) && d != e
    ensures !Sealed(e)
  {
    SealedMeansResidue(d);
    SealedMeansResidue(e);
    if Sealed(e) {
      CrcIsLawful();
      BurstChangesRun(CRC, INITIAL, d, e, i);
    }
  }

  /** In particular no single changed byte is overlooked. */
  lemma ByteChangeBreaksSeal(d: seq<Byte>, k: nat, b: Byte)
    requires k < |d| && |d| >= 4 && Sealed(d) && b != d[k]
    ensures !Sealed(d[k := b])
  {
    var i := if k + 4 <= |d| then k else |d| - 4;
    var e := d[k := b];
    assert e[k] != d[k];
    BurstBreaksSeal(d, e, i);
  }
}
