/** A register that shifts out its lowest bit and then adds a polynomial computes remainders: the lowest
    bit of the register is the coefficient of its highest power, and the lowest bit of a byte comes
    first. Everything here holds for any such register; CrcRemainder supplies the real one. */
module RegisterRemainders {
  import opened Base
  import opened BinaryPolynomials
  import opened LinearRegister

  /** The bits of a word: its lowest one, and the word without it. */
  datatype Bits<!W> = Bits(low: W -> bool, half: W -> W, width: nat)

  ghost predicate Bit<W>(b: Bits<W>, w: W, k: nat)
  {
    b.low(Iterate(b.half, w, k))
  }

  ghost predicate Coefficient<W>(b: Bits<W>, w: W, e: nat)
  {
    e < b.width && Bit(b, w, b.width - 1 - e)
  }

  ghost function Poly<W>(b: Bits<W>, w: W): Polynomial
  {
    set e | 0 <= e < b.width && Coefficient(b, w, e)
  }

  ghost predicate XorsAt<W>(m: Machine<W>, b: Bits<W>, v: W, w: W)
  {
    && b.half(m.xor(v, w)) == m.xor(b.half(v), b.half(w))
    && (b.low(m.xor(v, w)) <==> b.low(v) != b.low(w))
  }

  ghost predicate XorByBits<W(!new)>(m: Machine<W>, b: Bits<W>)
  {
    forall v, w {:trigger XorsAt(m, b, v, w)} :: XorsAt(m, b, v, w)
  }

  ghost predicate Runs<W(!new)>(b: Bits<W>)
  {
    forall w {:trigger Bit(b, w, b.width)} :: !Bit(b, w, b.width)
  }

  /** One round shifts out the lowest bit and adds the word poly if it was set. */
  ghost predicate RoundAdds<W(!new)>(m: Machine<W>, b: Bits<W>, poly: W)
  {
    forall v {:trigger m.round(v)} :: m.round(v) == if b.low(v) then m.xor(b.half(v), poly) else b.half(v)
  }

  /** A byte is lifted bit by bit. */
  ghost predicate LiftsBits<W>(m: Machine<W>, b: Bits<W>)
  {
    forall x: Byte {:trigger LiftHalves(m, b, x)} :: LiftHalves(m, b, x)
  }

  ghost predicate LiftHalves<W>(m: Machine<W>, b: Bits<W>, x: Byte)
  {
    b.half(m.lift(x)) == m.lift(x / 2) && (b.low(m.lift(x)) <==> x % 2 == 1)
  }

  ghost predicate Divides<W(!new)>(m: Machine<W>, b: Bits<W>, poly: W)
  {
    XorByBits(m, b) && Runs(b) && RoundAdds(m, b, poly) && LiftsBits(m, b) && b.width >= 8 && m.turns == 8
  }

  lemma {:induction false} HalfOfXor<W(!new)>(m: Machine<W>, b: Bits<W>, v: W, w: W, k: nat)
    requires XorByBits(m, b)
    ensures Iterate(b.half, m.xor(v, w), k) == m.xor(Iterate(b.half, v, k), Iterate(b.half, w, k))
  {
    if k > 0 {
      HalfOfXor(m, b, v, w, k - 1);
      assert XorsAt(m, b, Iterate(b.half, v, k - 1), Iterate(b.half, w, k - 1));
    }
  }

  lemma XorIsPlus<W(!new)>(m: Machine<W>, b: Bits<W>, v: W, w: W)
    requires XorByBits(m, b)
    ensures Poly(b, m.xor(v, w)) == Plus(Poly(b, v), Poly(b, w))
  {
    forall e: nat {:trigger Coefficient(b, m.xor(v, w), e)} | e < b.width
      ensures Coefficient(b, m.xor(v, w), e) <==> Coefficient(b, v, e) != Coefficient(b, w, e)
    {
      var k := b.width - 1 - e;
      HalfOfXor(m, b, v, w, k);
      assert XorsAt(m, b, Iterate(b.half, v, k), Iterate(b.half, w, k));
    }
  }

  lemma BitOfHalf<W>(b: Bits<W>, w: W, k: nat)
    ensures Bit(b, b.half(w), k) <==> Bit(b, w, k + 1)
  {
    IterateAdd(b.half, w, 1, k);
    assert Iterate(b.half, w, 1) == b.half(Iterate(b.half, w, 0));
  }

  /** Without its lowest bit, a word is one power higher, modulo the power that falls out. */
  lemma HalfIsTimes<W(!new)>(b: Bits<W>, w: W)
    requires Runs(b) && b.width > 0
    ensures Plus(Poly(b, b.half(w)), if b.low(w) then {b.width} else {}) == Times(Poly(b, w), 1)
  {
    var p := Plus(Poly(b, b.half(w)), if b.low(w) then {b.width} else {});
    assert b.low(w) <==> Bit(b, w, 0);
    forall e: nat ensures e in p <==> e in Times(Poly(b, w), 1) {
      TimesHas(Poly(b, w), 1, e);
      if e < b.width { BitOfHalf(b, w, b.width - 1 - e); }
      assert !Bit(b, w, b.width);
    }
  }

  /** The generator: the word of the register has no bit for its highest power. */
  ghost function Generator<W>(b: Bits<W>, poly: W): Polynomial
  {
    Plus(Poly(b, poly), {b.width})
  }

  lemma RoundTimes<W(!new)>(m: Machine<W>, b: Bits<W>, poly: W, v: W)
    requires Divides(m, b, poly)
    ensures Congruent(Generator(b, poly), Poly(b, m.round(v)), Times(Poly(b, v), 1))
  {
    var g := Generator(b, poly);
    HalfIsTimes(b, v);
    if b.low(v) {
      XorIsPlus(m, b, b.half(v), poly);
      assert Plus(Poly(b, m.round(v)), g) == Times(Poly(b, v), 1);
      CongruentModulus(g, Poly(b, m.round(v)));
      CongruentBack(g, Times(Poly(b, v), 1), Poly(b, m.round(v)));
    } else {
      assert Plus(Poly(b, m.round(v)), {}) == Poly(b, m.round(v));
      CongruentSame(g, Poly(b, m.round(v)));
    }
  }

  lemma CongruentBack(g: Polynomial, p: Polynomial, q: Polynomial)
    requires Congruent(g, p, q)
    ensures Congruent(g, q, p)
  {
    var t :| DifferBy(g, p, q, t);
    assert Plus(q, p) == Plus(p, q);
    assert DifferBy(g, q, p, t);
  }

  lemma TimesTwice(p: Polynomial, j: nat, k: nat)
    ensures Times(Times(p, j), k) == Times(p, j + k)
  {
    forall e: nat ensures e in Times(Times(p, j), k) <==> e in Times(p, j + k) {
      TimesHas(Times(p, j), k, e);
      TimesHas(p, j + k, e);
      if e >= k { TimesHas(p, j, e - k); }
    }
  }

  lemma TimesNothing(p: Polynomial)
    ensures Times(p, 0) == p
  {
    forall e: nat ensures e in Times(p, 0) <==> e in p { TimesHas(p, 0, e); }
  }

  lemma {:induction false} RoundsTimes<W(!new)>(m: Machine<W>, b: Bits<W>, poly: W, v: W, n: nat)
    requires Divides(m, b, poly)
    ensures Congruent(Generator(b, poly), Poly(b, Iterate(m.round, v, n)), Times(Poly(b, v), n))
  {
    var g := Generator(b, poly);
    if n == 0 {
      TimesNothing(Poly(b, v));
      CongruentSame(g, Poly(b, v));
    } else {
      var w := Iterate(m.round, v, n - 1);
      RoundsTimes(m, b, poly, v, n - 1);
      CongruentTimes(g, Poly(b, w), Times(Poly(b, v), n - 1), 1);
      TimesTwice(Poly(b, v), n - 1, 1);
      RoundTimes(m, b, poly, w);
      CongruentChain(g, Poly(b, m.round(w)), Times(Poly(b, w), 1), Times(Poly(b, v), n));
    }
  }

  // ----- data as polynomials -----

  /** Exponent e of the data: the first bit has the highest power. */
  predicate DataBit(d: seq<Byte>, e: nat)
    requires e < 8 * |d|
  {
    HasBit(d[|d| - 1 - e / 8], 7 - e % 8)
  }

  ghost function Message(d: seq<Byte>): Polynomial
  {
    set e | 0 <= e < 8 * |d| && DataBit(d, e)
  }

  lemma MessageGrows(d: seq<Byte>, x: Byte)
    ensures Message(d + [x]) == Plus(Times(Message(d), 8), Message([x]))
  {
    var all := d + [x];
    forall e: nat ensures e in Message(all) <==> e in Plus(Times(Message(d), 8), Message([x])) {
      TimesHas(Message(d), 8, e);
      if e >= 8 {
        assert (e - 8) / 8 == e / 8 - 1 && (e - 8) % 8 == e % 8;
        if e < 8 * |all| { assert DataBit(all, e) <==> DataBit(d, e - 8); }
      } else {
        assert e / 8 == 0 && e % 8 == e;
        assert DataBit(all, e) <==> DataBit([x], e);
      }
    }
  }

  lemma {:induction false} LiftedBit<W>(m: Machine<W>, b: Bits<W>, x: Byte, k: nat)
    requires LiftsBits(m, b)
    ensures Bit(b, m.lift(x), k) <==> HasBit(x, k)
  {
    assert LiftHalves(m, b, x);
    if k > 0 {
      LiftedBit(m, b, x / 2, k - 1);
      BitOfHalf(b, m.lift(x), k - 1);
      HalvedQuotient(x, Pow2(k - 1));
    }
  }

  lemma {:induction false} PowerAbove(n: nat, k: nat)
    requires n <= k
    ensures Pow2(n) <= Pow2(k)
  {
    if n < k { PowerAbove(n, k - 1); }
  }

  lemma HighBitsClear(x: Byte, k: nat)
    requires k >= 8
    ensures !HasBit(x, k)
  {
    PowerAbove(8, k);
    assert Pow2(8) == 256;
    UniqueRemainder(x, Pow2(k), 0, x);
    DivMod(x, Pow2(k));
  }

  /** A lifted byte takes the highest powers of the register. */
  lemma LiftIsByte<W(!new)>(m: Machine<W>, b: Bits<W>, x: Byte)
    requires LiftsBits(m, b) && b.width >= 8
    ensures Poly(b, m.lift(x)) == Times(Message([x]), b.width - 8)
  {
    forall e: nat ensures e in Poly(b, m.lift(x)) <==> e in Times(Message([x]), b.width - 8) {
      TimesHas(Message([x]), b.width - 8, e);
      if e < b.width {
        LiftedBit(m, b, x, b.width - 1 - e);
        if e < b.width - 8 {
          HighBitsClear(x, b.width - 1 - e);
        } else {
          var t := e - (b.width - 8);
          assert t / 8 == 0 && t % 8 == t;
          assert DataBit([x], t) <==> HasBit(x, 7 - t);
        }
      }
    }
  }

  /** The dividend: the start of the register in front of the data, times x to its width. */
  ghost function Dividend<W>(b: Bits<W>, v: W, d: seq<Byte>): Polynomial
  {
    Plus(Times(Poly(b, v), 8 * |d|), Times(Message(d), b.width))
  }

  lemma TimesOfPlus(p: Polynomial, q: Polynomial, k: nat)
    ensures Times(Plus(p, q), k) == Plus(Times(p, k), Times(q, k))
  {
    forall e: nat ensures e in Times(Plus(p, q), k) <==> e in Plus(Times(p, k), Times(q, k)) {
      TimesHas(Plus(p, q), k, e);
      TimesHas(p, k, e);
      TimesHas(q, k, e);
    }
  }

  lemma PlusAssociates(p: Polynomial, q: Polynomial, r: Polynomial)
    ensures Plus(Plus(p, q), r) == Plus(p, Plus(q, r))
  {
  }

  lemma DividendGrows<W>(b: Bits<W>, v: W, d: seq<Byte>, x: Byte)
    requires b.width >= 8
    ensures Dividend(b, v, d + [x]) == Plus(Times(Dividend(b, v, d), 8), Times(Message([x]), b.width))
  {
    var p, q := Poly(b, v), Message(d);
    MessageGrows(d, x);
    TimesOfPlus(Times(p, 8 * |d|), Times(q, b.width), 8);
    TimesTwice(p, 8 * |d|, 8);
    TimesTwice(q, b.width, 8);
    TimesTwice(q, 8, b.width);
    TimesOfPlus(Times(q, 8), Message([x]), b.width);
    PlusAssociates(Times(p, 8 * |d| + 8), Times(q, b.width + 8), Times(Message([x]), b.width));
  }

  lemma AbsorbedTimes<W(!new)>(m: Machine<W>, b: Bits<W>, v: W, x: Byte, n: nat)
    requires XorByBits(m, b) && LiftsBits(m, b) && n == 8 <= b.width
    ensures Times(Poly(b, m.xor(v, m.lift(x))), n) == Plus(Times(Poly(b, v), n), Times(Message([x]), b.width))
  {
    XorIsPlus(m, b, v, m.lift(x));
    LiftIsByte(m, b, x);
    TimesOfPlus(Poly(b, v), Times(Message([x]), b.width - n), n);
    TimesTwice(Message([x]), b.width - n, n);
  }

  lemma FeedTimes<W(!new)>(m: Machine<W>, b: Bits<W>, poly: W, v: W, x: Byte)
    requires Divides(m, b, poly)
    ensures Congruent(Generator(b, poly), Poly(b, Feed(m, v, x)),
                      Plus(Times(Poly(b, v), m.turns), Times(Message([x]), b.width)))
  {
    AbsorbedTimes(m, b, v, x, m.turns);
    RoundsTimes(m, b, poly, m.xor(v, m.lift(x)), m.turns);
  }

  /** The register holds the remainder of the dividend. */
  lemma {:induction false} RunIsRemainder<W(!new)>(m: Machine<W>, b: Bits<W>, poly: W, v: W, d: seq<Byte>)
    requires Divides(m, b, poly)
    ensures Congruent(Generator(b, poly), Poly(b, Run(m, v, d)), Dividend(b, v, d))
  {
    var g := Generator(b, poly);
    if d == [] {
      TimesNothing(Poly(b, v));
      assert Message(d) == {} && Times({}, b.width) == {};
      assert Plus(Poly(b, v), {}) == Poly(b, v);
      CongruentSame(g, Poly(b, v));
    } else {
      var front, x := d[..|d| - 1], d[|d| - 1];
      assert d == front + [x];
      var w := Run(m, v, front);
      RunIsRemainder(m, b, poly, v, front);
      CongruentTimes(g, Poly(b, w), Dividend(b, v, front), 8);
      CongruentPlus(g, Times(Poly(b, w), 8), Times(Dividend(b, v, front), 8), Times(Message([x]), b.width));
      DividendGrows(b, v, front, x);
      FeedTimes(m, b, poly, w, x);
      CongruentChain(g, Poly(b, Feed(m, w, x)), Plus(Times(Poly(b, w), 8), Times(Message([x]), b.width)),
                     Dividend(b, v, d));
    }
  }
}
