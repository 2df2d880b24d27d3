/** A shift register that absorbs bytes by xor and then runs a linear, invertible round a
    fixed number of times per byte.  Everything here holds for any such register; Crc supplies the real one. */
module LinearRegister {
  import opened Base

  /** `turns` is the number of rounds per byte; up moves a word up by one byte. */
  datatype Machine<!W> = Machine(xor: (W, W) -> W, round: W -> W, lift: Byte -> W, up: W -> W, turns: nat)

  function Iterate<W>(f: W -> W, v: W, n: nat): W
  {
    if n == 0 then v else f(Iterate(f, v, n - 1))
  }

  /** The register after one more data byte. */
  function Feed<W>(m: Machine<W>, v: W, b: Byte): W
  {
    Iterate(m.round, m.xor(v, m.lift(b)), m.turns)
  }

  /** The register after a run of data bytes. */
  function Run<W>(m: Machine<W>, v: W, data: seq<Byte>): W
  {
    if data == [] then v else Feed(m, Run(m, v, data[..|data| - 1]), data[|data| - 1])
  }

  /** Four bytes as one little-endian word. */
  function Assemble<W>(m: Machine<W>, b0: Byte, b1: Byte, b2: Byte, b3: Byte): W
  {
    m.xor(m.lift(b0), m.up(m.xor(m.lift(b1), m.up(m.xor(m.lift(b2), m.up(m.lift(b3)))))))
  }

  function WordAt<W>(m: Machine<W>, d: seq<Byte>, i: nat): W
    requires i + 4 <= |d|
  {
    Assemble(m, d[i], d[i + 1], d[i + 2], d[i + 3])
  }

  ghost predicate Injective<A(!new), B>(f: A -> B)
  {
    forall a, b :: f(a) == f(b) ==> a == b
  }

  ghost predicate Associative<W(!new)>(m: Machine<W>)
  {
    forall v, b, x :: m.xor(m.xor(v, m.lift(b)), m.up(x)) == m.xor(v, m.xor(m.lift(b), m.up(x)))
  }

  ghost predicate Cancels<W(!new)>(m: Machine<W>)
  {
    && (forall a, b, c :: m.xor(a, c) == m.xor(b, c) ==> a == b)
    && (forall a, b, c :: m.xor(c, a) == m.xor(c, b) ==> a == b)
  }

  ghost predicate Linear<W(!new)>(m: Machine<W>)
  {
    forall a, b :: m.round(m.xor(a, b)) == m.xor(m.round(a), m.round(b))
  }

  /** A word of at most three bytes that was moved up one byte is back after one byte's rounds. */
  ghost predicate ShortWordsReturn<W>(m: Machine<W>)
  {
    && (forall b3 {:trigger Returns(m, m.lift(b3))} :: Returns(m, m.lift(b3)))
    && (forall b2, b3 {:trigger Returns(m, m.xor(m.lift(b2), m.up(m.lift(b3))))} ::
          Returns(m, m.xor(m.lift(b2), m.up(m.lift(b3)))))
    && (forall b1, b2, b3 {:trigger Returns(m, m.xor(m.lift(b1), m.up(m.xor(m.lift(b2), m.up(m.lift(b3))))))} ::
          Returns(m, m.xor(m.lift(b1), m.up(m.xor(m.lift(b2), m.up(m.lift(b3)))))))
  }

  ghost predicate TellsWordsApart<W>(m: Machine<W>)
  {
    forall a0, a1, a2, a3, b0, b1, b2, b3 ::
      Assemble(m, a0, a1, a2, a3) == Assemble(m, b0, b1, b2, b3) ==>
        a0 == b0 && a1 == b1 && a2 == b2 && a3 == b3
  }

  ghost predicate Lawful<W(!new)>(m: Machine<W>)
  {
    Associative(m) && Cancels(m) && Injective(m.round) && Linear(m) && ShortWordsReturn(m) && TellsWordsApart(m)
  }

  ghost predicate Returns<W>(m: Machine<W>, x: W)
  {
    Iterate(m.round, m.up(x), m.turns) == x
  }

  lemma {:induction false} IterateInjective<W(!new)>(f: W -> W, v: W, w: W, n: nat)
    requires Injective(f) && Iterate(f, v, n) == Iterate(f, w, n)
    ensures v == w
  {
    if n > 0 { IterateInjective(f, v, w, n - 1); }
  }

  lemma {:induction false} IterateAdd<W>(f: W -> W, v: W, j: nat, k: nat)
    ensures Iterate(f, Iterate(f, v, j), k) == Iterate(f, v, j + k)
  {
    if k > 0 { IterateAdd(f, v, j, k - 1); }
  }

  lemma {:induction false} IterateMany<W(!new)>(f: W -> W, g: W -> W, v: W, j: nat, k: nat)
    requires forall w {:trigger g(w)} :: Iterate(f, w, j) == g(w)
    ensures Iterate(f, v, j * k) == Iterate(g, v, k)
  {
    if k > 0 {
      IterateMany(f, g, v, j, k - 1);
      IterateAdd(f, v, j * (k - 1), j);
      assert j * (k - 1) + j == j * k;
    }
  }

  lemma {:induction false} IterateLinear<W(!new)>(m: Machine<W>, a: W, b: W, n: nat)
    requires Linear(m)
    ensures Iterate(m.round, m.xor(a, b), n) == m.xor(Iterate(m.round, a, n), Iterate(m.round, b, n))
  {
    if n > 0 { IterateLinear(m, a, b, n - 1); }
  }

  /** Two registers that agree after the same data agreed before it. */
  lemma {:induction false} RunInjective<W(!new)>(m: Machine<W>, v: W, w: W, data: seq<Byte>)
    requires Cancels(m) && Injective(m.round) && Run(m, v, data) == Run(m, w, data)
    ensures v == w
  {
    if data != [] {
      var front, x := data[..|data| - 1], m.lift(data[|data| - 1]);
      IterateInjective(m.round, m.xor(Run(m, v, front), x), m.xor(Run(m, w, front), x), m.turns);
      RunInjective(m, v, w, front);
    }
  }

  lemma {:induction false} RunConcat<W>(m: Machine<W>, v: W, a: seq<Byte>, b: seq<Byte>)
    ensures Run(m, v, a + b) == Run(m, Run(m, v, a), b)
  {
    if b == [] {
      assert a + b == a;
    } else {
      assert (a + b)[..|a + b| - 1] == a + b[..|b| - 1];
      RunConcat(m, v, a, b[..|b| - 1]);
    }
  }

  /** What is xored in after a byte might as well be xored in one byte higher before it. */
  ghost predicate MovesAhead<W>(m: Machine<W>, v: W, b: Byte, x: W)
  {
    m.xor(Feed(m, v, b), x) == Iterate(m.round, m.xor(v, m.xor(m.lift(b), m.up(x))), m.turns)
  }

  lemma FeedAhead<W(!new)>(m: Machine<W>, v: W, b: Byte, x: W)
    requires Associative(m) && Linear(m) && Returns(m, x)
    ensures MovesAhead(m, v, b, x)
  {
    IterateLinear(m, m.xor(v, m.lift(b)), m.up(x), m.turns);
  }

  /** Four byte steps are four times the rounds over the register xored with the whole word. */
  lemma FourBytes<W(!new)>(m: Machine<W>, v: W, b0: Byte, b1: Byte, b2: Byte, b3: Byte)
    requires Associative(m) && Linear(m) && ShortWordsReturn(m)
    ensures Run(m, v, [b0, b1, b2, b3]) == Iterate(m.round, m.xor(v, Assemble(m, b0, b1, b2, b3)), 4 * m.turns)
  {
    var x3 := m.lift(b3);
    var x2 := m.xor(m.lift(b2), m.up(x3));
    var x1 := m.xor(m.lift(b1), m.up(x2));
    var r1 := Feed(m, v, b0);
    var r2 := Feed(m, r1, b1);
    FeedAhead(m, r2, b2, x3);
    FeedAhead(m, r1, b1, x2);
    FeedAhead(m, v, b0, x1);
    FourSteps(m, v, b0, b1, b2, b3);
  }

  lemma FourSteps<W>(m: Machine<W>, v: W, b0: Byte, b1: Byte, b2: Byte, b3: Byte)
    requires var x3 := m.lift(b3);
             var x2 := m.xor(m.lift(b2), m.up(x3));
             var x1 := m.xor(m.lift(b1), m.up(x2));
             && MovesAhead(m, Feed(m, Feed(m, v, b0), b1), b2, x3)
             && MovesAhead(m, Feed(m, v, b0), b1, x2)
             && MovesAhead(m, v, b0, x1)
    ensures Run(m, v, [b0, b1, b2, b3]) == Iterate(m.round, m.xor(v, Assemble(m, b0, b1, b2, b3)), 4 * m.turns)
  {
    var w := m.xor(v, Assemble(m, b0, b1, b2, b3));
    FourFeeds(m, v, b0, b1, b2, b3);
    IterateAdd(m.round, w, m.turns, m.turns);
    IterateAdd(m.round, w, 2 * m.turns, m.turns);
    IterateAdd(m.round, w, 3 * m.turns, m.turns);
  }

  lemma FourFeeds<W>(m: Machine<W>, v: W, b0: Byte, b1: Byte, b2: Byte, b3: Byte)
    ensures Run(m, v, [b0, b1, b2, b3]) == Feed(m, Feed(m, Feed(m, Feed(m, v, b0), b1), b2), b3)
  {
    assert [b0, b1, b2, b3][..3] == [b0, b1, b2];
    assert [b0, b1, b2][..2] == [b0, b1];
    assert [b0, b1][..1] == [b0];
    assert [b0][..0] == [];
    assert Run(m, v, [b0]) == Feed(m, v, b0);
    assert Run(m, v, [b0, b1]) == Feed(m, Run(m, v, [b0]), b1);
    assert Run(m, v, [b0, b1, b2]) == Feed(m, Run(m, v, [b0, b1]), b2);
  }

  lemma SplitAround<W>(m: Machine<W>, v: W, d: seq<Byte>, i: nat)
    requires i + 4 <= |d|
    ensures Run(m, v, d) == Run(m, Run(m, Run(m, v, d[..i]), [d[i], d[i + 1], d[i + 2], d[i + 3]]), d[i + 4..])
  {
    RunConcat(m, v, d[..i], [d[i], d[i + 1], d[i + 2], d[i + 3]]);
    RunConcat(m, v, d[..i] + [d[i], d[i + 1], d[i + 2], d[i + 3]], d[i + 4..]);
    FourInside(d, i);
  }

  lemma FourInside<T>(d: seq<T>, i: nat)
    requires i + 4 <= |d|
    ensures d == d[..i] + [d[i], d[i + 1], d[i + 2], d[i + 3]] + d[i + 4..]
  {
  }

  /** d and e have one length and agree outside the four bytes that start at i. */
  ghost predicate DifferOnlyIn(d: seq<Byte>, e: seq<Byte>, i: nat)
  {
    |d| == |e| && i + 4 <= |d| && d[..i] == e[..i] && d[i + 4..] == e[i + 4..]
  }

  /** A change confined to four consecutive bytes always changes the register. */
  lemma BurstChangesRun<W(!new)>(m: Machine<W>, v: W, d: seq<Byte>, e: seq<Byte>, i: nat)
    requires Lawful(m) && DifferOnlyIn(d, e, i) && Run(m, v, d) == Run(m, v, e)
    ensures d == e
  {
    WindowsAgree(m, v, d, e, i);
    SameOutsideAndIn(d, e, i);
  }

  lemma SameOutsideAndIn(d: seq<Byte>, e: seq<Byte>, i: nat)
    requires DifferOnlyIn(d, e, i)
    requires d[i] == e[i] && d[i + 1] == e[i + 1] && d[i + 2] == e[i + 2] && d[i + 3] == e[i + 3]
    ensures d == e
  {
    forall k | 0 <= k < |d| ensures d[k] == e[k] {
      if k < i {
        assert d[..i][k] == e[..i][k];
      } else if k >= i + 4 {
        assert d[i + 4..][k - i - 4] == e[i + 4..][k - i - 4];
      }
    }
  }

  lemma WindowsAgree<W(!new)>(m: Machine<W>, v: W, d: seq<Byte>, e: seq<Byte>, i: nat)
    requires Lawful(m) && DifferOnlyIn(d, e, i) && Run(m, v, d) == Run(m, v, e)
    ensures d[i] == e[i] && d[i + 1] == e[i + 1] && d[i + 2] == e[i + 2] && d[i + 3] == e[i + 3]
  {
    var s := Run(m, v, d[..i]);
    var p, q := [d[i], d[i + 1], d[i + 2], d[i + 3]], [e[i], e[i + 1], e[i + 2], e[i + 3]];
    SplitAround(m, v, d, i);
    SplitAround(m, v, e, i);
    RunInjective(m, Run(m, s, p), Run(m, s, q), d[i + 4..]);
    FourBytesInjective(m, s, d[i], d[i + 1], d[i + 2], d[i + 3], e[i], e[i + 1], e[i + 2], e[i + 3]);
  }

  lemma FourBytesInjective<W(!new)>(m: Machine<W>, s: W, a0: Byte, a1: Byte, a2: Byte, a3: Byte,
                                    b0: Byte, b1: Byte, b2: Byte, b3: Byte)
    requires Lawful(m) && Run(m, s, [a0, a1, a2, a3]) == Run(m, s, [b0, b1, b2, b3])
    ensures a0 == b0 && a1 == b1 && a2 == b2 && a3 == b3
  {
    FourBytes(m, s, a0, a1, a2, a3);
    FourBytes(m, s, b0, b1, b2, b3);
    IterateInjective(m.round, m.xor(s, Assemble(m, a0, a1, a2, a3)), m.xor(s, Assemble(m, b0, b1, b2, b3)),
                     4 * m.turns);
    assert Assemble(m, a0, a1, a2, a3) == Assemble(m, b0, b1, b2, b3);
  }

  /** Some bytes followed by a four-byte word that brings the register to `ones` under xor
      leave a residue that does not depend on the bytes; and nothing else does. */
  lemma TrailerMeansResidue<W(!new)>(m: Machine<W>, v: W, d: seq<Byte>, ones: W)
    requires Lawful(m) && |d| >= 4
    ensures m.xor(Run(m, v, d[..|d| - 4]), WordAt(m, d, |d| - 4)) == ones
            <==> Run(m, v, d) == Iterate(m.round, ones, 4 * m.turns)
  {
    var n := |d| - 4;
    var s := Run(m, v, d[..n]);
    SplitAround(m, v, d, n);
    assert d[n + 4..] == [];
    FourBytes(m, s, d[n], d[n + 1], d[n + 2], d[n + 3]);
    if Run(m, v, d) == Iterate(m.round, ones, 4 * m.turns) {
      IterateInjective(m.round, m.xor(s, WordAt(m, d, n)), ones, 4 * m.turns);
    }
  }
}
