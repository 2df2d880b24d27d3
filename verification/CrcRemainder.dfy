/** The checksum of Crc is the remainder of the data by the generator polynomial of CRC-32. */
module CrcRemainder {
  import opened Base
  import opened BinaryPolynomials
  import opened Crc
  import opened LinearRegister
  import opened RegisterRemainders

  /** The exponents of the generator, as section 8 of RFC 1952 refers to it. */
  const GENERATOR: Polynomial := {32, 26, 23, 22, 16, 12, 11, 10, 8, 7, 5, 4, 2, 1, 0}

  predicate Low(w: Word) { w & 1 == 1 }

  function Half(w: Word): Word { w >> 1 }

  const BITS: Bits<Word> := Bits(Low, Half, 32)

  // ----- the laws of the register -----

  lemma XorLaw(a: Word, b: Word)
    ensures Half(Xor(a, b)) == Xor(Half(a), Half(b))
    ensures Low(Xor(a, b)) <==> Low(a) != Low(b)
  {
  }

  lemma RoundLaw(v: Word)
    ensures Low(v) ==> Round(v) == Xor(Half(v), POLYNOMIAL)
    ensures !Low(v) ==> Round(v) == Half(v)
  {
    RoundBit(v);
  }

  lemma EightHalves(w: Word)
    ensures Half(Half(Half(Half(Half(Half(Half(Half(w)))))))) == w >> 8
  {
  }

  lemma FourBytesOut(w: Word)
    ensures (((w >> 8) >> 8) >> 8) >> 8 == 0
    ensures !Low(0)
  {
  }

  lemma EightOut(w: Word, k: nat)
    ensures Iterate(Half, w, k + 8) == Iterate(Half, w, k) >> 8
  {
    IterateAdd(Half, w, k, 8);
    EightIterations(Half, Iterate(Half, w, k));
    EightHalves(Iterate(Half, w, k));
  }

  lemma NothingLeft(w: Word)
    ensures !Low(Iterate(Half, w, 32))
  {
    EightOut(w, 0);
    EightOut(w, 8);
    EightOut(w, 16);
    EightOut(w, 24);
    FourBytesOut(w);
  }

  lemma HalfOfByte(x: bv8)
    ensures (x >> 1) as int == x as int / 2
    ensures x & 1 == 1 <==> x as int % 2 == 1
  {
  }

  lemma Widened(x: bv8)
    ensures Low(x as Word) <==> x & 1 == 1
    ensures Half(x as Word) == (x >> 1) as Word
  {
  }

  /** A byte halved is its register halved. */
  lemma HalfLifted(b: Byte)
    ensures Half(Lift(b)) == Lift(b / 2)
    ensures Low(Lift(b)) <==> b % 2 == 1
  {
    var x := Crc.Bits(b);
    HalfOfByte(x);
    Widened(x);
    ValueIsUnique(x >> 1, Crc.Bits(b / 2), b / 2);
  }

  /** The register of Crc divides by the generator. */
  lemma CrcDivides()
    ensures Divides(CRC, BITS, POLYNOMIAL)
  {
    forall v, w ensures XorsAt(CRC, BITS, v, w) { XorLaw(v, w); }
    forall w ensures !Bit(BITS, w, 32) { NothingLeft(w); }
    forall v ensures CRC.round(v) == if BITS.low(v) then CRC.xor(BITS.half(v), POLYNOMIAL) else BITS.half(v) {
      RoundLaw(v);
    }
    forall x: Byte ensures LiftHalves(CRC, BITS, x) { HalfLifted(x); }
  }

  // ----- a word is its four bytes -----

  lemma LowByteSplits(y: Word)
    ensures y == Xor(((y & 0xff) as bv8) as Word, y & 0xffff_ff00)
  {
  }

  lemma LowByteClear(y: Word)
    ensures var z := y & 0xffff_ff00;
            && !Low(z) && !Low(Half(z)) && !Low(Half(Half(z))) && !Low(Half(Half(Half(z))))
            && !Low(Half(Half(Half(Half(z))))) && !Low(Half(Half(Half(Half(Half(z))))))
            && !Low(Half(Half(Half(Half(Half(Half(z)))))))
            && !Low(Half(Half(Half(Half(Half(Half(Half(z))))))))
  {
  }

  lemma EightSteps<W>(f: W -> W, y: W)
    ensures Iterate(f, y, 0) == y && Iterate(f, y, 1) == f(y) && Iterate(f, y, 2) == f(f(y))
    ensures Iterate(f, y, 3) == f(f(f(y))) && Iterate(f, y, 4) == f(f(f(f(y))))
    ensures Iterate(f, y, 5) == f(f(f(f(f(y))))) && Iterate(f, y, 6) == f(f(f(f(f(f(y))))))
    ensures Iterate(f, y, 7) == f(f(f(f(f(f(f(y)))))))
  {
    assert Iterate(f, y, 1) == f(Iterate(f, y, 0)) && Iterate(f, y, 2) == f(Iterate(f, y, 1));
    assert Iterate(f, y, 3) == f(Iterate(f, y, 2)) && Iterate(f, y, 4) == f(Iterate(f, y, 3));
    assert Iterate(f, y, 5) == f(Iterate(f, y, 4)) && Iterate(f, y, 6) == f(Iterate(f, y, 5));
  }

  lemma NoLowBits(y: Word, i: nat)
    requires i < 8
    ensures !Low(Iterate(Half, y & 0xffff_ff00, i))
  {
    LowByteClear(y);
    EightSteps(Half, y & 0xffff_ff00);
  }

  /** Bit i of the low byte. */
  lemma LowByteBit(y: Word, i: nat)
    requires i < 8
    ensures Bit(BITS, y, i) <==> HasBit(LowByte(y), i)
  {
    var x, z := (y & 0xff) as bv8, y & 0xffff_ff00;
    CrcDivides();
    LowByteSplits(y);
    BitsOfValue(x);
    HalfOfXor(CRC, BITS, Lift(Value(x)), z, i);
    assert XorsAt(CRC, BITS, Iterate(Half, Lift(Value(x)), i), Iterate(Half, z, i));
    NoLowBits(y, i);
    LiftedBit(CRC, BITS, Value(x), i);
  }

  function Shed(w: Word): Word { w >> 8 }

  function LowByte(w: Word): Byte { Value((w & 0xff) as bv8) }

  lemma ShedIsEight(w: Word)
    ensures Iterate(Half, w, 8) == Shed(w)
  {
    EightOut(w, 0);
  }

  lemma ShedTwice(w: Word)
    ensures LowByte(w) == WordBytes(w)[0] && LowByte(Shed(w)) == WordBytes(w)[1]
    ensures LowByte(Shed(Shed(w))) == WordBytes(w)[2] && LowByte(Shed(Shed(Shed(w)))) == WordBytes(w)[3]
  {
  }

  lemma ByteOf(w: Word, j: nat)
    requires j < 4
    ensures LowByte(Iterate(Shed, w, j)) == WordBytes(w)[j]
  {
    EightSteps(Shed, w);
    ShedTwice(w);
  }

  lemma WordBit(w: Word, j: nat, i: nat)
    requires j < 4 && i < 8
    ensures Bit(BITS, w, 8 * j + i) <==> HasBit(WordBytes(w)[j], i)
  {
    forall v: Word ensures Iterate(Half, v, 8) == Shed(v) { ShedIsEight(v); }
    IterateMany(Half, Shed, w, 8, j);
    IterateAdd(Half, w, 8 * j, i);
    ByteOf(w, j);
    LowByteBit(Iterate(Shed, w, j), i);
  }

  /** A word as a polynomial is its four bytes as data. */
  lemma WordIsMessage(w: Word)
    ensures Poly(BITS, w) == Message(WordBytes(w))
  {
    forall e: nat | e < 32 ensures Coefficient(BITS, w, e) <==> DataBit(WordBytes(w), e) {
      WordBit(w, 3 - e / 8, 7 - e % 8);
    }
  }

  lemma GeneratorBytes()
    ensures WordBytes(POLYNOMIAL) == [0x20, 0x83, 0xb8, 0xed]
    ensures WordBytes(INITIAL) == [255, 255, 255, 255]
  {
  }

  const ONES: Polynomial := set e: nat | 0 <= e < 32

  lemma OnesAre()
    ensures Message([255, 255, 255, 255]) == ONES
  {
    forall e: nat | e < 32 ensures DataBit([255, 255, 255, 255], e) { AllOnes(7 - e % 8); }
  }

  lemma AllOnes(k: nat)
    requires k < 8
    ensures HasBit(255, k)
  {
    assert Pow2(1) == 2 && Pow2(2) == 4 && Pow2(3) == 8 && Pow2(4) == 16;
    assert Pow2(5) == 32 && Pow2(6) == 64 && Pow2(7) == 128;
    if k == 0 {} else if k == 1 {} else if k == 2 {} else if k == 3 {} else if k == 4 {} else if k == 5 {}
  }

  lemma EightBits(x: Byte)
    ensures HasBit(x, 0) <==> x % 2 == 1
    ensures HasBit(x, 1) <==> x / 2 % 2 == 1
    ensures HasBit(x, 2) <==> x / 4 % 2 == 1
    ensures HasBit(x, 3) <==> x / 8 % 2 == 1
    ensures HasBit(x, 4) <==> x / 16 % 2 == 1
    ensures HasBit(x, 5) <==> x / 32 % 2 == 1
    ensures HasBit(x, 6) <==> x / 64 % 2 == 1
    ensures HasBit(x, 7) <==> x / 128 % 2 == 1
  {
    assert Pow2(1) == 2 && Pow2(2) == 4 && Pow2(3) == 8 && Pow2(4) == 16;
    assert Pow2(5) == 32 && Pow2(6) == 64 && Pow2(7) == 128;
  }

  lemma GeneratorBits(d: seq<Byte>, e: nat, j: nat, k: nat)
    requires d == [0x20, 0x83, 0xb8, 0xed] && j < 4 && k < 8 && e == 8 * (3 - j) + (7 - k)
    ensures HasBit(d[j], k) <==> e in GENERATOR
  {
    EightBits(d[j]);
    assert j == 0 || j == 1 || j == 2 || j == 3;
    assert k == 0 || k == 1 || k == 2 || k == 3 || k == 4 || k == 5 || k == 6 || k == 7;
  }

  /** The constant of the code is the generator without its highest power. */
  lemma GeneratorIs()
    ensures Generator(BITS, POLYNOMIAL) == GENERATOR
  {
    GeneratorBytes();
    WordIsMessage(POLYNOMIAL);
    var d: seq<Byte> := [0x20, 0x83, 0xb8, 0xed];
    forall e: nat | e < 32 ensures DataBit(d, e) <==> e in GENERATOR { GeneratorBits(d, e, 3 - e / 8, 7 - e % 8); }
  }

  lemma {:induction false} SameByte(x: Byte, y: Byte, n: nat)
    requires x < Pow2(n) && y < Pow2(n)
    requires forall k: nat {:trigger HasBit(x, k)} :: k < n ==> (HasBit(x, k) <==> HasBit(y, k))
    ensures x == y
  {
    if n > 0 {
      forall k: nat | k < n - 1 ensures HasBit(x / 2, k) <==> HasBit(y / 2, k) {
        HalvedQuotient(x, Pow2(k));
        HalvedQuotient(y, Pow2(k));
        assert HasBit(x, k + 1) <==> HasBit(y, k + 1);
      }
      SameByte(x / 2, y / 2, n - 1);
      assert HasBit(x, 0) <==> HasBit(y, 0);
    }
  }

  lemma MessageInjective(c: seq<Byte>, d: seq<Byte>)
    requires |c| == |d| && Message(c) == Message(d)
    ensures c == d
  {
    forall i | 0 <= i < |c| ensures c[i] == d[i] {
      forall k: nat | k < 8 ensures HasBit(c[i], k) <==> HasBit(d[i], k) {
        var e := 8 * (|c| - 1 - i) + (7 - k);
        assert e / 8 == |c| - 1 - i && e % 8 == 7 - k;
        assert e in Message(c) <==> DataBit(c, e);
        assert e in Message(d) <==> DataBit(d, e);
      }
      assert Pow2(8) == 256;
      SameByte(c[i], d[i], 8);
    }
  }

  // ----- the checksum -----

  /** Behind some data, its trailer: with all its bits flipped, it is congruent to the data times x to the
      power 32, with the first 32 bits of all flipped. */
  ghost predicate Divided(data: seq<Byte>, trailer: seq<Byte>)
  {
    Congruent(GENERATOR, Plus(Message(trailer), ONES), Plus(Times(ONES, 8 * |data|), Times(Message(data), 32)))
  }

  lemma StartIsOnes()
    ensures Poly(BITS, INITIAL) == ONES
  {
    WordIsMessage(INITIAL);
    GeneratorBytes();
    OnesAre();
  }

  lemma FlippedWord(w: Word)
    ensures Poly(BITS, w) == Plus(Poly(BITS, !w), ONES)
  {
    CrcDivides();
    StartIsOnes();
    FlippedIsXor(w);
    XorIsPlus(CRC, BITS, !w, INITIAL);
  }

  lemma FlippedIsXor(w: Word)
    ensures w == Xor(!w, INITIAL)
  {
  }

  lemma ChecksumDivides(data: seq<Byte>)
    ensures Divided(data, WordBytes(Checksum(data)))
  {
    var w := Run(CRC, INITIAL, data);
    RegisterDivides(data);
    FlippedMessage(w);
    RemainderDivides(data, WordBytes(!w), Poly(BITS, w));
  }

  lemma RegisterDivides(data: seq<Byte>)
    ensures Congruent(GENERATOR, Poly(BITS, Run(CRC, INITIAL, data)),
                      Plus(Times(ONES, 8 * |data|), Times(Message(data), 32)))
  {
    CrcDivides();
    GeneratorIs();
    RunIsRemainder(CRC, BITS, POLYNOMIAL, INITIAL, data);
    StartIsOnes();
  }

  lemma FlippedMessage(w: Word)
    ensures Poly(BITS, w) == Plus(Message(WordBytes(!w)), ONES)
  {
    FlippedWord(w);
    WordIsMessage(!w);
  }

  lemma RemainderDivides(data: seq<Byte>, trailer: seq<Byte>, p: Polynomial)
    requires Congruent(GENERATOR, p, Plus(Times(ONES, 8 * |data|), Times(Message(data), 32)))
    requires p == Plus(Message(trailer), ONES)
    ensures Divided(data, trailer)
  {
  }

  lemma FlipBack(p: Polynomial, q: Polynomial)
    requires Plus(p, ONES) == Plus(q, ONES)
    ensures p == q
  {
    forall e: nat ensures e in p <==> e in q {
      PlusHas(p, ONES, e);
      PlusHas(q, ONES, e);
    }
  }

  /** And no other four bytes are. */
  lemma OneTrailer(data: seq<Byte>, c: seq<Byte>, d: seq<Byte>)
    requires |c| == |d| == 4 && Divided(data, c) && Divided(data, d)
    ensures c == d
  {
    var p, q := Plus(Message(c), ONES), Plus(Message(d), ONES);
    var all := Plus(Times(ONES, 8 * |data|), Times(Message(data), 32));
    CongruentBack(GENERATOR, q, all);
    CongruentChain(GENERATOR, p, all, q);
    RemainderIsUnique(GENERATOR, 32, p, q);
    FlipBack(Message(c), Message(d));
    MessageInjective(c, d);
  }

  lemma SealTrailer(d: seq<Byte>, n: nat)
    requires |d| == n + 4
    ensures d == Seal(d[..n]) <==> d[n..] == WordBytes(Checksum(d[..n]))
  {
    var w := WordBytes(Checksum(d[..n]));
    assert d == d[..n] + d[n..];
    assert (d[..n] + w)[n..] == w;
  }

  lemma SealedMeansTrailer(d: seq<Byte>)
    requires |d| >= 4
    ensures Sealed(d) <==> d[|d| - 4..] == WordBytes(Checksum(d[..|d| - 4]))
  {
    SealTrailer(d, |d| - 4);
    if Sealed(d) { SealedIsSeal(d); }
    if d == Seal(d[..|d| - 4]) { SealIsSealed(d[..|d| - 4]); }
  }

  /** The trailer test of the containers, in terms of polynomials: the four bytes behind the data are the
      remainder, as section 8 of RFC 1952 has it, and nothing else passes. */
  lemma SealedMeansDivided(d: seq<Byte>)
    requires |d| >= 4
    ensures Sealed(d) <==> Divided(d[..|d| - 4], d[|d| - 4..])
  {
    var n := |d| - 4;
    ChecksumDivides(d[..n]);
    SealedMeansTrailer(d);
    if Divided(d[..n], d[n..]) { OneTrailer(d[..n], d[n..], WordBytes(Checksum(d[..n]))); }
  }

  // ----- two values -----

  const CHECK: seq<Byte> := [0x31, 0x32, 0x33, 0x34, 0x35, 0x36, 0x37, 0x38, 0x39]

  lemma FeedStep(d: seq<Byte>, i: nat, v: Word, x: bv8, w: Word)
    requires i < |d| && Run(CRC, INITIAL, d[..i]) == v && d[i] == x as int
    requires EightRounds(v ^ (x as Word)) == w
    ensures Run(CRC, INITIAL, d[..i + 1]) == w
  {
    assert d[..i + 1][..i] == d[..i];
    ValueIsUnique(Crc.Bits(d[i]), x, d[i]);
    EightIterations(Round, v ^ (x as Word));
  }

  lemma CheckTo2()
    ensures Run(CRC, INITIAL, CHECK[..2]) == 0xb0acbb32
  {
    FeedStep(CHECK, 0, 0xffffffff, 0x31, 0x7c231048);
    FeedStep(CHECK, 1, 0x7c231048, 0x32, 0xb0acbb32);
  }

  lemma CheckTo4()
    ensures Run(CRC, INITIAL, CHECK[..4]) == 0x641c1f5c
  {
    CheckTo2();
    FeedStep(CHECK, 2, 0xb0acbb32, 0x33, 0x77b79c2d);
    FeedStep(CHECK, 3, 0x77b79c2d, 0x34, 0x641c1f5c);
  }

  lemma CheckTo6()
    ensures Run(CRC, INITIAL, CHECK[..6]) == 0xf68d2c9e
  {
    CheckTo4();
    FeedStep(CHECK, 4, 0x641c1f5c, 0x35, 0x340ac5e3);
    FeedStep(CHECK, 5, 0x340ac5e3, 0x36, 0xf68d2c9e);
  }

  lemma CheckTo8()
    ensures Run(CRC, INITIAL, CHECK[..8]) == 0x651f2550
  {
    CheckTo6();
    FeedStep(CHECK, 6, 0xf68d2c9e, 0x37, 0xaffc9660);
    FeedStep(CHECK, 7, 0xaffc9660, 0x38, 0x651f2550);
  }

  /** The check value of CRC-32, the checksum of the digits one to nine. */
  lemma CheckValue()
    ensures Checksum(CHECK) == 0xcbf4_3926
  {
    CheckTo8();
    FeedStep(CHECK, 8, 0x651f2550, 0x39, 0x340bc6d9);
    assert CHECK[..9] == CHECK;
  }

  lemma FourTimesEight<W>(f: W -> W, v: W)
    ensures Iterate(f, v, 32) == Iterate(f, Iterate(f, Iterate(f, Iterate(f, v, 8), 8), 8), 8)
  {
    IterateAdd(f, v, 8, 8);
    IterateAdd(f, v, 16, 8);
    IterateAdd(f, v, 24, 8);
  }

  lemma EightAre(v: Word, w: Word)
    requires EightRounds(v) == w
    ensures Iterate(Round, v, 8) == w
  {
    EightIterations(Round, v);
  }

  /** The residue that the register ends in behind every container. */
  lemma ResidueIs()
    ensures Iterate(CRC.round, INITIAL, 4 * CRC.turns) == 0xdebb_20e3
  {
    FourTimesEight(Round, INITIAL);
    EightAre(0xffffffff, 0x2dfd1072);
    EightAre(0x2dfd1072, 0xbe26ed00);
    EightAre(0xbe26ed00, 0x00be26ed);
    EightAre(0x00be26ed, 0xdebb20e3);
  }
}
